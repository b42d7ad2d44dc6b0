/**
 * The batch driver: every station file found is summarised in turn, the rows are
 * concatenated, and the combined table is sorted by gauge id.
 */
module Batch {
  import opened Wrappers
  import opened StationTable
  import StationStats
  import GaugeIds
  import StringOrder

  type Summary = StationStats.StationSummary

  /** A file found by the directory scan: its path, its size in bytes and the table it holds. */
  datatype ScannedFile = ScannedFile(path: string, size: nat, table: Table)

  /** The CSV reader hands over tables with one cell per column in each row. */
  type StationFile = f: ScannedFile | f.table.Rectangular() witness ScannedFile("", 0, Table(0, []))

  /** Why a run ends without a summary table. */
  datatype BatchFailure =
    | StationFailed(path: string, cause: StationStats.Failure) // a station raised; the run aborts
    | NoGaugeIdColumn                                          // nothing to sort: no row was produced

  /** What calculating the statistics of one station file can give. */
  type Outcome = Result<Option<Summary>, StationStats.Failure>

  /**
   * `calculate_stats` applied to one file. The loop below is stated for any per-file
   * procedure `stats`; the driver passes this one.
   */
  function CalculateStats(f: StationFile): Outcome {
    StationStats.StationStats(f.path, f.table)
  }

  /** A non-empty file whose station raises. */
  predicate Fails(f: StationFile, stats: StationFile -> Outcome) {
    f.size > 0 && stats(f).Failure?
  }

  /** A non-empty file whose station yields a summary row. */
  predicate Contributes(f: StationFile, stats: StationFile -> Outcome) {
    f.size > 0 && stats(f).Success? && stats(f).value.Some?
  }

  // ---------------------------------------------------------------------------
  // The loop over the files

  /** One iteration: skip an empty file, abort on an exception, drop "no row", append a row. */
  function Step(acc: Result<seq<Summary>, BatchFailure>, f: StationFile, stats: StationFile -> Outcome):
    (r: Result<seq<Summary>, BatchFailure>)
    ensures acc.Failure? || f.size == 0 ==> r == acc
    ensures r.Success? ==> acc.Success? && |r.value| <= |acc.value| + 1
  {
    if acc.Failure? || f.size == 0 then acc
    else match stats(f)
      case Failure(e) => Failure(StationFailed(f.path, e))
      case Success(None) => acc
      case Success(Some(s)) => Success(acc.value + [s])
  }

  /** A step that succeeds keeps the rows so far as a prefix of its result. */
  lemma StepExtends(acc: Result<seq<Summary>, BatchFailure>, f: StationFile, stats: StationFile -> Outcome)
    ensures Step(acc, f, stats).Success? ==> acc.Success? && acc.value <= Step(acc, f, stats).value
  {
  }

  /** The concatenated rows after the loop has seen `files`, or the exception that ended it. */
  function Accumulate(files: seq<StationFile>, stats: StationFile -> Outcome): (r: Result<seq<Summary>, BatchFailure>)
    ensures r.Success? ==> |r.value| <= |files|
  {
    if files == [] then Success([])
    else Step(Accumulate(files[..|files| - 1], stats), files[|files| - 1], stats)
  }

  // ---------------------------------------------------------------------------
  // Sorting by gauge id

  function Ids(rows: seq<Summary>): (ids: seq<string>)
    ensures |ids| == |rows| && forall k :: 0 <= k < |rows| ==> ids[k] == rows[k].gaugeId
  {
    seq(|rows|, k requires 0 <= k < |rows| => rows[k].gaugeId)
  }

  predicate SortedStrings(xs: seq<string>) {
    forall i, j :: 0 <= i < j < |xs| ==> StringOrder.AtMost(xs[i], xs[j])
  }

  /** Rows in ascending order of gauge id. */
  predicate SortedById(rows: seq<Summary>) {
    SortedStrings(Ids(rows))
  }

  lemma IdsCons(x: Summary, rows: seq<Summary>)
    ensures Ids([x] + rows) == [x.gaugeId] + Ids(rows)
  {
    assert ([x] + rows)[1..] == rows;
  }

  lemma InsertFront(s: Summary, rows: seq<Summary>)
    requires rows != [] && SortedById(rows) && StringOrder.AtMost(s.gaugeId, rows[0].gaugeId)
    ensures SortedById([s] + rows)
    ensures multiset(Ids([s] + rows)) == multiset(Ids(rows)) + multiset{s.gaugeId}
  {
    IdsCons(s, rows);
    forall j | 1 < j < |rows| + 1
      ensures StringOrder.AtMost(s.gaugeId, ([s] + rows)[j].gaugeId)
    {
      StringOrder.AtMostTransitive(s.gaugeId, rows[0].gaugeId, rows[j - 1].gaugeId);
    }
  }

  /** A row whose gauge id is at most every id of a sorted list may go in front of it. */
  lemma ConsSorted(x: Summary, rows: seq<Summary>)
    requires SortedById(rows)
    requires forall k :: 0 <= k < |rows| ==> StringOrder.AtMost(x.gaugeId, rows[k].gaugeId)
    ensures SortedById([x] + rows)
  {
  }

  /** The head of a sorted list bounds every element of any rearrangement of its tail plus `s`. */
  lemma HeadBoundsRest(s: Summary, rows: seq<Summary>, tail: seq<Summary>)
    requires rows != [] && SortedById(rows) && StringOrder.AtMost(rows[0].gaugeId, s.gaugeId)
    requires multiset(tail) == multiset(rows[1..]) + multiset{s}
    ensures forall k :: 0 <= k < |tail| ==> StringOrder.AtMost(rows[0].gaugeId, tail[k].gaugeId)
  {
    forall k | 0 <= k < |tail|
      ensures StringOrder.AtMost(rows[0].gaugeId, tail[k].gaugeId)
    {
      assert tail[k] in multiset(tail);
      if tail[k] != s {
        assert tail[k] in multiset(rows[1..]);
        var m :| 0 <= m < |rows[1..]| && rows[1..][m] == tail[k];
        assert rows[m + 1] == tail[k];
      }
    }
  }

  lemma HeadAndRest(rows: seq<Summary>)
    requires rows != []
    ensures multiset(rows) == multiset{rows[0]} + multiset(rows[1..])
    ensures Ids(rows) == [rows[0].gaugeId] + Ids(rows[1..])
  {
    assert rows == [rows[0]] + rows[1..];
  }

  lemma InsertBehind(s: Summary, rows: seq<Summary>, tail: seq<Summary>)
    requires rows != [] && SortedById(rows) && !StringOrder.AtMost(s.gaugeId, rows[0].gaugeId)
    requires SortedById(tail) && multiset(tail) == multiset(rows[1..]) + multiset{s}
    requires multiset(Ids(tail)) == multiset(Ids(rows[1..])) + multiset{s.gaugeId}
    ensures SortedById([rows[0]] + tail)
    ensures multiset([rows[0]] + tail) == multiset(rows) + multiset{s}
    ensures multiset(Ids([rows[0]] + tail)) == multiset(Ids(rows)) + multiset{s.gaugeId}
  {
    StringOrder.AtMostTotal(s.gaugeId, rows[0].gaugeId);
    HeadBoundsRest(s, rows, tail);
    ConsSorted(rows[0], tail);
    HeadAndRest(rows);
    IdsCons(rows[0], rows[1..]);
    IdsCons(rows[0], tail);
  }

  function Insert(s: Summary, rows: seq<Summary>): (out: seq<Summary>)
    requires SortedById(rows)
    ensures SortedById(out)
    ensures multiset(out) == multiset(rows) + multiset{s}
    ensures multiset(Ids(out)) == multiset(Ids(rows)) + multiset{s.gaugeId}
  {
    if rows == [] then [s]
    else if StringOrder.AtMost(s.gaugeId, rows[0].gaugeId) then
      InsertFront(s, rows);
      [s] + rows
    else
      var tail := Insert(s, rows[1..]);
      InsertBehind(s, rows, tail);
      [rows[0]] + tail
  }

  /** `sort_values(by=['gauge_id'])`: ascending gauge ids, the same rows. */
  function SortByGaugeId(rows: seq<Summary>): (out: seq<Summary>)
    ensures SortedById(out)
    ensures multiset(out) == multiset(rows)
    ensures multiset(Ids(out)) == multiset(Ids(rows))
  {
    if rows == [] then []
    else
      assert rows == [rows[0]] + rows[1..];
      IdsCons(rows[0], rows[1..]);
      Insert(rows[0], SortByGaugeId(rows[1..]))
  }

  /**
   * The table the run writes out: the accumulated rows sorted by gauge id. With no row
   * at all the frame has no gauge_id column and the sort raises.
   */
  function SummaryTable(files: seq<StationFile>, stats: StationFile -> Outcome): (r: Result<seq<Summary>, BatchFailure>)
    ensures r.Success? ==> 0 < |r.value| <= |files|
    ensures r.Failure? && r.error.StationFailed? ==> Accumulate(files, stats).Failure?
  {
    match Accumulate(files, stats)
    case Failure(e) => Failure(e)
    case Success(rows) =>
      if rows == [] then Failure(NoGaugeIdColumn)
      else
        var sorted := SortByGaugeId(rows);
        assert |multiset(sorted)| == |multiset(rows)|;
        Success(sorted)
  }

  /** One pass of the loop body: skip an empty file, otherwise run the station and add its row. */
  method VisitFile(df: seq<Summary>, f: StationFile) returns (next: Result<seq<Summary>, BatchFailure>)
    ensures next == Step(Success(df), f, CalculateStats)
  {
    if f.size == 0 {
      return Success(df);
    }
    var outcome := StationStats.CalculateStats(f.path, f.table);
    match outcome
    case Failure(e) => next := Failure(StationFailed(f.path, e));
    case Success(None) => next := Success(df);
    case Success(Some(s)) => next := Success(df + [s]);
  }

  /** Runs the batch as the driver does, one file at a time. */
  method BuildSummaryTable(files: seq<StationFile>) returns (r: Result<seq<Summary>, BatchFailure>)
    ensures r == SummaryTable(files, CalculateStats)
  {
    var df: seq<Summary> := [];
    var i := 0;
    while i < |files|
      invariant 0 <= i <= |files|
      invariant Accumulate(files[..i], CalculateStats) == Success(df)
    {
      var next := VisitFile(df, files[i]);
      LoopStep(files, i, CalculateStats);
      if next.Failure? {
        AbortedTable(files, i + 1, CalculateStats);
        return next;
      }
      df := next.value;
      i := i + 1;
    }
    FinishedTable(files, CalculateStats);
    if df == [] {
      return Failure(NoGaugeIdColumn);
    }
    r := Success(SortByGaugeId(df));
  }

  /** One more file takes the loop one step further. */
  lemma LoopStep(files: seq<StationFile>, i: nat, stats: StationFile -> Outcome)
    requires i < |files|
    ensures Accumulate(files[..i + 1], stats) == Step(Accumulate(files[..i], stats), files[i], stats)
  {
    assert files[..i + 1][..i] == files[..i];
  }

  /** A loop that has aborted after k files has decided the table. */
  lemma AbortedTable(files: seq<StationFile>, k: nat, stats: StationFile -> Outcome)
    requires k <= |files| && Accumulate(files[..k], stats).Failure?
    ensures SummaryTable(files, stats) == Accumulate(files[..k], stats)
  {
    AbortIsFinal(files, k, stats);
  }

  /** A loop that has seen every file gives the missing column or its rows sorted. */
  lemma FinishedTable(files: seq<StationFile>, stats: StationFile -> Outcome)
    requires Accumulate(files[..|files|], stats).Success?
    ensures var rows := Accumulate(files[..|files|], stats).value;
      SummaryTable(files, stats) == if rows == [] then Failure(NoGaugeIdColumn) else Success(SortByGaugeId(rows))
  {
    assert files[..|files|] == files;
  }

  // ---------------------------------------------------------------------------
  // What the loop computes

  /** Once a station has raised, later files change nothing. */
  lemma {:induction false} AbortIsFinal(files: seq<StationFile>, k: nat, stats: StationFile -> Outcome)
    requires k <= |files| && Accumulate(files[..k], stats).Failure?
    ensures Accumulate(files, stats) == Accumulate(files[..k], stats)
    decreases |files|
  {
    if |files| > k {
      var prefix := files[..|files| - 1];
      assert prefix[..k] == files[..k];
      AbortIsFinal(prefix, k, stats);
    } else {
      assert files[..k] == files;
    }
  }

  /** The rows of the contributing files, in file order. */
  function Contributions(files: seq<StationFile>, stats: StationFile -> Outcome): (rows: seq<Summary>)
    ensures |rows| <= |files|
  {
    if files == [] then []
    else
      var f := files[|files| - 1];
      Contributions(files[..|files| - 1], stats) + (if Contributes(f, stats) then [stats(f).value.value] else [])
  }

  /** The contributing files themselves, in file order. */
  function ContributingFiles(files: seq<StationFile>, stats: StationFile -> Outcome): (cs: seq<StationFile>)
    ensures forall k :: 0 <= k < |cs| ==> cs[k] in files && Contributes(cs[k], stats)
  {
    if files == [] then []
    else
      var f := files[|files| - 1];
      ContributingFiles(files[..|files| - 1], stats) + (if Contributes(f, stats) then [f] else [])
  }

  /** The loop completes exactly when no non-empty file raises. */
  lemma {:induction false} AccumulateSucceeds(files: seq<StationFile>, stats: StationFile -> Outcome)
    ensures Accumulate(files, stats).Success? <==> forall i :: 0 <= i < |files| ==> !Fails(files[i], stats)
  {
    if files != [] {
      var prefix, f := files[..|files| - 1], files[|files| - 1];
      AccumulateSucceeds(prefix, stats);
      assert forall i :: 0 <= i < |prefix| ==> files[i] == prefix[i];
    }
  }

  /** A completed loop holds the rows of the contributing files, in file order. */
  lemma {:induction false} AccumulateHoldsContributions(files: seq<StationFile>, stats: StationFile -> Outcome)
    requires Accumulate(files, stats).Success?
    ensures Accumulate(files, stats).value == Contributions(files, stats)
  {
    if files != [] {
      AccumulateHoldsContributions(files[..|files| - 1], stats);
    }
  }

  /** File `i` is the first non-empty file whose station raises. */
  predicate FirstFailureAt(files: seq<StationFile>, i: int, stats: StationFile -> Outcome) {
    0 <= i < |files| && Fails(files[i], stats) && forall j :: 0 <= j < i ==> !Fails(files[j], stats)
  }

  /** A run that aborts does so with the exception of the first non-empty file that raises. */
  lemma {:induction false} AccumulateFailsAtFirst(files: seq<StationFile>, stats: StationFile -> Outcome)
    requires Accumulate(files, stats).Failure?
    ensures exists i ::
      FirstFailureAt(files, i, stats) &&
      Accumulate(files, stats).error == StationFailed(files[i].path, stats(files[i]).error)
  {
    var prefix := files[..|files| - 1];
    if Accumulate(prefix, stats).Failure? {
      AccumulateFailsAtFirst(prefix, stats);
      var i :| FirstFailureAt(prefix, i, stats) &&
        Accumulate(prefix, stats).error == StationFailed(prefix[i].path, stats(prefix[i]).error);
      assert FirstFailureAt(files, i, stats);
    } else {
      AccumulateSucceeds(prefix, stats);
      assert forall i :: 0 <= i < |prefix| ==> files[i] == prefix[i];
      assert FirstFailureAt(files, |files| - 1, stats);
    }
  }

  /** Each summary row is the row of the contributing file at the same position. */
  lemma {:induction false} ContributionsMatchFiles(files: seq<StationFile>, stats: StationFile -> Outcome)
    ensures |Contributions(files, stats)| == |ContributingFiles(files, stats)|
    ensures forall k :: 0 <= k < |Contributions(files, stats)| ==>
      Contributions(files, stats)[k] == stats(ContributingFiles(files, stats)[k]).value.value
  {
    if files != [] {
      ContributionsMatchFiles(files[..|files| - 1], stats);
    }
  }

  /** The run raises KeyError exactly when no station raised and none produced a row. */
  lemma NoRowsMeansNoGaugeIdColumn(files: seq<StationFile>, stats: StationFile -> Outcome)
    ensures SummaryTable(files, stats) == Failure(NoGaugeIdColumn) <==>
      (forall i :: 0 <= i < |files| ==> !Fails(files[i], stats)) && ContributingFiles(files, stats) == []
  {
    AccumulateSucceeds(files, stats);
    if Accumulate(files, stats).Success? {
      AccumulateHoldsContributions(files, stats);
      ContributionsMatchFiles(files, stats);
    } else {
      AccumulateFailsAtFirst(files, stats);
    }
  }

  /** Loops that agree after the same prefix agree after any continuation. */
  lemma {:induction false} SameSoFarSameAfter(a: seq<StationFile>, b: seq<StationFile>, c: seq<StationFile>,
                                              stats: StationFile -> Outcome)
    requires Accumulate(a, stats) == Accumulate(b, stats)
    ensures Accumulate(a + c, stats) == Accumulate(b + c, stats)
    decreases |c|
  {
    if c == [] {
      assert a + c == a && b + c == b;
    } else {
      var front, last := c[..|c| - 1], c[|c| - 1];
      SameSoFarSameAfter(a, b, front, stats);
      assert (a + c)[..|a + c| - 1] == a + front && (a + c)[|a + c| - 1] == last;
      assert (b + c)[..|b + c| - 1] == b + front && (b + c)[|b + c| - 1] == last;
    }
  }

  /** An empty file may be inserted anywhere without changing the outcome. */
  lemma EmptyFileIgnored(before: seq<StationFile>, f: StationFile, after: seq<StationFile>,
                         stats: StationFile -> Outcome)
    requires f.size == 0
    ensures Accumulate(before + [f] + after, stats) == Accumulate(before + after, stats)
  {
    assert (before + [f])[..|before|] == before;
    SameSoFarSameAfter(before + [f], before, after, stats);
  }

  // ---------------------------------------------------------------------------
  // Gauge ids of the written table

  /** The gauge ids of a list of files, one per file. */
  function FileIds(files: seq<StationFile>): (ids: seq<string>)
    ensures |ids| == |files| && forall k :: 0 <= k < |files| ==> ids[k] == GaugeIds.GaugeId(files[k].path)
  {
    seq(|files|, k requires 0 <= k < |files| => GaugeIds.GaugeId(files[k].path))
  }

  /** Row k of the concatenation carries the gauge id of the k-th contributing file. */
  lemma ContributionIds(files: seq<StationFile>)
    ensures Ids(Contributions(files, CalculateStats)) == FileIds(ContributingFiles(files, CalculateStats))
  {
    ContributionsMatchFiles(files, CalculateStats);
    var cs := ContributingFiles(files, CalculateStats);
    forall k | 0 <= k < |cs|
      ensures Ids(Contributions(files, CalculateStats))[k] == FileIds(cs)[k]
    {
      StationStats.SummaryDescribesSurvivors(cs[k].path, cs[k].table);
    }
  }

  /**
   * The written table is sorted by gauge id and holds one row per contributing file,
   * duplicates included: its gauge ids are those of the contributing files, counted
   * with multiplicity.
   */
  lemma SummaryTableRows(files: seq<StationFile>)
    requires SummaryTable(files, CalculateStats).Success?
    ensures var rows, cs := SummaryTable(files, CalculateStats).value, ContributingFiles(files, CalculateStats);
      SortedById(rows) && |rows| == |cs| > 0 &&
      multiset(rows) == multiset(Contributions(files, CalculateStats)) &&
      multiset(Ids(rows)) == multiset(FileIds(cs))
  {
    AccumulateHoldsContributions(files, CalculateStats);
    ContributionsMatchFiles(files, CalculateStats);
    ContributionIds(files);
    var rows := Contributions(files, CalculateStats);
    var out := SummaryTable(files, CalculateStats).value;
    assert out == SortByGaugeId(rows);
    assert |multiset(rows)| == |rows| && |multiset(out)| == |out|;
  }

  lemma SortedTail(xs: seq<string>)
    requires xs != [] && SortedStrings(xs)
    ensures SortedStrings(xs[1..])
  {
    forall i, j | 0 <= i < j < |xs| - 1
      ensures StringOrder.AtMost(xs[1..][i], xs[1..][j])
    {
      assert xs[1..][i] == xs[i + 1] && xs[1..][j] == xs[j + 1];
    }
  }

  /** The head of an ascending list is at most each of its elements. */
  lemma HeadIsLeast(xs: seq<string>, x: string)
    requires SortedStrings(xs) && x in xs
    ensures StringOrder.AtMost(xs[0], x)
  {
    var i :| 0 <= i < |xs| && xs[i] == x;
    if i == 0 {
      StringOrder.AtMostReflexive(x);
    }
  }

  lemma MultisetOfTail(xs: seq<string>)
    requires xs != []
    ensures multiset(xs[1..]) == multiset(xs) - multiset{xs[0]}
  {
    assert xs == [xs[0]] + xs[1..];
  }

  /** Two ascending lists of strings with the same elements are the same list. */
  lemma {:induction false} SortedStringsUnique(xs: seq<string>, ys: seq<string>)
    requires SortedStrings(xs) && SortedStrings(ys) && multiset(xs) == multiset(ys)
    ensures xs == ys
    decreases |xs|
  {
    if xs == [] {
      assert |multiset(ys)| == 0;
    } else {
      SameHead(xs, ys);
      SameTails(xs, ys);
      SortedStringsUnique(xs[1..], ys[1..]);
      assert xs == [xs[0]] + xs[1..] && ys == [ys[0]] + ys[1..];
    }
  }

  lemma SameHead(xs: seq<string>, ys: seq<string>)
    requires xs != [] && SortedStrings(xs) && SortedStrings(ys) && multiset(xs) == multiset(ys)
    ensures ys != [] && xs[0] == ys[0]
  {
    assert xs[0] in multiset(ys) && ys != [] && ys[0] in multiset(xs);
    HeadIsLeast(xs, ys[0]);
    HeadIsLeast(ys, xs[0]);
    StringOrder.AtMostAntisymmetric(xs[0], ys[0]);
  }

  lemma SameTails(xs: seq<string>, ys: seq<string>)
    requires xs != [] && ys != [] && xs[0] == ys[0]
    requires SortedStrings(xs) && SortedStrings(ys) && multiset(xs) == multiset(ys)
    ensures SortedStrings(xs[1..]) && SortedStrings(ys[1..]) && multiset(xs[1..]) == multiset(ys[1..])
  {
    MultisetOfTail(xs);
    MultisetOfTail(ys);
    SortedTail(xs);
    SortedTail(ys);
  }

  /**
   * The gauge-id column of the written table depends only on which gauge ids the
   * contributing files carry, counted with multiplicity.
   */
  lemma SameIdsSameColumn(files1: seq<StationFile>, files2: seq<StationFile>)
    requires SummaryTable(files1, CalculateStats).Success? && SummaryTable(files2, CalculateStats).Success?
    requires multiset(FileIds(ContributingFiles(files1, CalculateStats))) ==
             multiset(FileIds(ContributingFiles(files2, CalculateStats)))
    ensures Ids(SummaryTable(files1, CalculateStats).value) == Ids(SummaryTable(files2, CalculateStats).value)
  {
    SummaryTableRows(files1);
    SummaryTableRows(files2);
    SortedStringsUnique(Ids(SummaryTable(files1, CalculateStats).value), Ids(SummaryTable(files2, CalculateStats).value));
  }

  // ---------------------------------------------------------------------------
  // Listing the same files in another order

  /** A file is among the contributing files as often as among all files if it contributes, else never. */
  lemma {:induction false} ContributingCount(files: seq<StationFile>, stats: StationFile -> Outcome, f: StationFile)
    ensures multiset(ContributingFiles(files, stats))[f] == if Contributes(f, stats) then multiset(files)[f] else 0
  {
    if files != [] {
      var prefix, last := files[..|files| - 1], files[|files| - 1];
      ContributingCount(prefix, stats, f);
      TakeLast(files);
      var added := if Contributes(last, stats) then [last] else [];
      assert ContributingFiles(files, stats) == ContributingFiles(prefix, stats) + added;
      assert multiset(ContributingFiles(files, stats)) == multiset(ContributingFiles(prefix, stats)) + multiset(added);
    }
  }

  /** The same files in another order have the same contributing files, counted with multiplicity. */
  lemma SameFilesSameContributors(files1: seq<StationFile>, files2: seq<StationFile>, stats: StationFile -> Outcome)
    requires multiset(files1) == multiset(files2)
    ensures multiset(ContributingFiles(files1, stats)) == multiset(ContributingFiles(files2, stats))
  {
    forall f: StationFile
      ensures multiset(ContributingFiles(files1, stats))[f] == multiset(ContributingFiles(files2, stats))[f]
    {
      ContributingCount(files1, stats, f);
      ContributingCount(files2, stats, f);
    }
  }

  /** `g` applied to each element, in order. */
  function Image<T, U>(g: T -> U, xs: seq<T>): (ys: seq<U>)
    ensures |ys| == |xs| && forall k :: 0 <= k < |xs| ==> ys[k] == g(xs[k])
  {
    seq(|xs|, k requires 0 <= k < |xs| => g(xs[k]))
  }

  lemma ImageAppend<T, U>(g: T -> U, a: seq<T>, b: seq<T>)
    ensures Image(g, a + b) == Image(g, a) + Image(g, b)
  {
    var joined, parts := Image(g, a + b), Image(g, a) + Image(g, b);
    forall k | 0 <= k < |joined| ensures joined[k] == parts[k] {
      if k < |a| {
        assert (a + b)[k] == a[k];
      } else {
        assert (a + b)[k] == b[k - |a|];
      }
    }
  }

  /** Putting the same element back into two lists whose images agree keeps them agreeing. */
  lemma ImagePutBack<T, U>(g: T -> U, front: seq<T>, before: seq<T>, x: T, after: seq<T>)
    requires multiset(Image(g, front)) == multiset(Image(g, before + after))
    ensures multiset(Image(g, front + [x])) == multiset(Image(g, before + [x] + after))
  {
    var one := Image(g, [x]);
    calc {
      multiset(Image(g, before + [x] + after));
      { ImageAppend(g, before + [x], after); ImageAppend(g, before, [x]); }
      multiset(Image(g, before) + one + Image(g, after));
      multiset(Image(g, before)) + multiset(Image(g, after)) + multiset(one);
      { ImageAppend(g, before, after); }
      multiset(Image(g, before + after)) + multiset(one);
      multiset(Image(g, front)) + multiset(one);
      { ImageAppend(g, front, [x]); }
      multiset(Image(g, front + [x]));
    }
  }

  /** The image of a rearrangement is a rearrangement of the image. */
  lemma {:induction false} ImageOfRearrangement<T, U>(g: T -> U, xs: seq<T>, ys: seq<T>)
    requires multiset(xs) == multiset(ys)
    ensures multiset(Image(g, xs)) == multiset(Image(g, ys))
    decreases |xs|
  {
    if xs == [] {
      assert |multiset(ys)| == 0;
    } else {
      var front, x := xs[..|xs| - 1], xs[|xs| - 1];
      TakeLast(xs);
      assert x in multiset(ys);
      var j :| 0 <= j < |ys| && ys[j] == x;
      TakeOut(ys, j);
      var rest := ys[..j] + ys[j + 1..];
      assert multiset(front) == multiset(rest);
      ImageOfRearrangement(g, front, rest);
      ImagePutBack(g, front, ys[..j], x, ys[j + 1..]);
    }
  }

  /** The list without its last element, and what is left of its elements without that one. */
  lemma TakeLast<T>(xs: seq<T>)
    requires xs != []
    ensures xs == xs[..|xs| - 1] + [xs[|xs| - 1]]
    ensures multiset(xs[..|xs| - 1]) == multiset(xs) - multiset{xs[|xs| - 1]}
  {
    assert xs == xs[..|xs| - 1] + [xs[|xs| - 1]];
  }

  /** The list around position j, and what is left of its elements without that one. */
  lemma TakeOut<T>(xs: seq<T>, j: nat)
    requires j < |xs|
    ensures xs == xs[..j] + [xs[j]] + xs[j + 1..]
    ensures multiset(xs[..j] + xs[j + 1..]) == multiset(xs) - multiset{xs[j]}
  {
    assert xs == xs[..j] + [xs[j]] + xs[j + 1..];
  }

  /** The gauge ids of a rearrangement of files are a rearrangement of their gauge ids. */
  lemma FileIdsOfRearrangement(xs: seq<StationFile>, ys: seq<StationFile>)
    requires multiset(xs) == multiset(ys)
    ensures multiset(FileIds(xs)) == multiset(FileIds(ys))
  {
    var id := (f: StationFile) => GaugeIds.GaugeId(f.path);
    ImageOfRearrangement(id, xs, ys);
    assert FileIds(xs) == Image(id, xs);
    assert FileIds(ys) == Image(id, ys);
  }

  /** The same files in another order make the run succeed just as often. */
  lemma SameFilesSameSuccess(files1: seq<StationFile>, files2: seq<StationFile>, stats: StationFile -> Outcome)
    requires multiset(files1) == multiset(files2) && SummaryTable(files1, stats).Success?
    ensures SummaryTable(files2, stats).Success?
  {
    AccumulateSucceeds(files1, stats);
    AccumulateSucceeds(files2, stats);
    forall i | 0 <= i < |files2| ensures !Fails(files2[i], stats) {
      assert files2[i] in multiset(files1);
    }
    AccumulateHoldsContributions(files1, stats);
    AccumulateHoldsContributions(files2, stats);
    ContributionsMatchFiles(files1, stats);
    ContributionsMatchFiles(files2, stats);
    SameFilesSameContributors(files1, files2, stats);
    var cs1, cs2 := ContributingFiles(files1, stats), ContributingFiles(files2, stats);
    assert |multiset(cs1)| == |cs1| && |multiset(cs2)| == |cs2|;
  }

  /**
   * The gauge-id column of the written table does not depend on the order in which the
   * directory scan lists the files: the same files in any order give a table too, with
   * the same gauge ids in the same order.
   */
  lemma GaugeIdColumnIndependentOfOrder(files1: seq<StationFile>, files2: seq<StationFile>)
    requires multiset(files1) == multiset(files2) && SummaryTable(files1, CalculateStats).Success?
    ensures SummaryTable(files2, CalculateStats).Success?
    ensures Ids(SummaryTable(files1, CalculateStats).value) == Ids(SummaryTable(files2, CalculateStats).value)
  {
    SameFilesSameSuccess(files1, files2, CalculateStats);
    SameFilesSameContributors(files1, files2, CalculateStats);
    FileIdsOfRearrangement(ContributingFiles(files1, CalculateStats), ContributingFiles(files2, CalculateStats));
    SameIdsSameColumn(files1, files2);
  }
}
