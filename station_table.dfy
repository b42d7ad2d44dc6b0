/**
 * A station's raw table as read from its file (timestamp label plus one optional value
 * per column) and the three cleaning stages applied to it before any statistic.
 */
module StationTable {
  import opened Wrappers
  import opened Calendar

  /** One line of the file: its index timestamp and one cell per column (None = missing). */
  datatype Row = Row(time: Timestamp, cells: seq<Option<real>>)

  /** A table of `width` columns. */
  datatype Table = Table(width: nat, rows: seq<Row>) {
    predicate Rectangular() {
      forall i :: 0 <= i < |rows| ==> |rows[i].cells| == width
    }
  }

  /** Column `c` holds no value in any row. */
  predicate AllMissing(t: Table, c: nat)
    requires t.Rectangular() && c < t.width
  {
    forall i :: 0 <= i < |t.rows| ==> t.rows[i].cells[c].None?
  }

  predicate StrictlyIncreasing(cols: seq<nat>) {
    forall i, j :: 0 <= i < j < |cols| ==> cols[i] < cols[j]
  }

  /** The columns from `from` on that hold at least one value, in file order. */
  function RetainedFrom(t: Table, from: nat): (cols: seq<nat>)
    requires t.Rectangular() && from <= t.width
    ensures StrictlyIncreasing(cols)
    ensures forall k :: 0 <= k < |cols| ==> from <= cols[k] < t.width && !AllMissing(t, cols[k])
    ensures forall c :: from <= c < t.width && !AllMissing(t, c) ==> c in cols
    decreases t.width - from
  {
    if from == t.width then []
    else if AllMissing(t, from) then RetainedFrom(t, from + 1)
    else [from] + RetainedFrom(t, from + 1)
  }

  /** The columns that survive the first cleaning stage. */
  function RetainedColumns(t: Table): seq<nat>
    requires t.Rectangular()
  {
    RetainedFrom(t, 0)
  }

  /** A row reduced to the given columns, in the given order. */
  function Project(r: Row, cols: seq<nat>): (p: Row)
    ensures p.time == r.time && |p.cells| == |cols|
    ensures forall k :: 0 <= k < |cols| && cols[k] < |r.cells| ==> p.cells[k] == r.cells[cols[k]]
  {
    Row(r.time, seq(|cols|, k requires 0 <= k < |cols| =>
      if cols[k] < |r.cells| then r.cells[cols[k]] else None))
  }

  function ProjectAll(rows: seq<Row>, cols: seq<nat>): (ps: seq<Row>)
    ensures |ps| == |rows|
    ensures forall i :: 0 <= i < |rows| ==> ps[i] == Project(rows[i], cols)
  {
    if rows == [] then [] else [Project(rows[0], cols)] + ProjectAll(rows[1..], cols)
  }

  /** Stage 1: drop every column that is entirely missing. */
  function DropAllMissingColumns(t: Table): (u: Table)
    requires t.Rectangular()
    ensures u.Rectangular() && u.width == |RetainedColumns(t)| && |u.rows| == |t.rows|
  {
    var cols := RetainedColumns(t);
    Table(|cols|, ProjectAll(t.rows, cols))
  }

  /** The rows satisfying `ok`, in their original order. */
  function Keep(rows: seq<Row>, ok: Row -> bool): (kept: seq<Row>)
    ensures |kept| <= |rows|
    ensures forall i :: 0 <= i < |kept| ==> kept[i] in rows && ok(kept[i])
  {
    if rows == [] then []
    else if ok(rows[0]) then [rows[0]] + Keep(rows[1..], ok)
    else Keep(rows[1..], ok)
  }

  predicate Complete(r: Row) {
    forall k :: 0 <= k < |r.cells| ==> r.cells[k].Some?
  }

  /** Every cell is present and not negative: what survives masking `df >= 0` and dropping NaN. */
  predicate NonNegative(r: Row) {
    forall k :: 0 <= k < |r.cells| ==> r.cells[k].Some? && r.cells[k].value >= 0.0
  }

  /** Stage 2: drop every row with a missing value in a remaining column. */
  function DropIncompleteRows(t: Table): Table {
    Table(t.width, Keep(t.rows, Complete))
  }

  /** Stage 3: drop every row with a negative value. */
  function DropNegativeRows(t: Table): Table {
    Table(t.width, Keep(t.rows, NonNegative))
  }

  /** The three cleaning stages in their order. */
  function Clean(t: Table): (c: Table)
    requires t.Rectangular()
    ensures c.width == |RetainedColumns(t)| && |c.rows| <= |t.rows|
    ensures forall i :: 0 <= i < |c.rows| ==> NonNegative(c.rows[i])
  {
    DropNegativeRows(DropIncompleteRows(DropAllMissingColumns(t)))
  }

  /** A raw row survives cleaning: present and not negative in every column that is not entirely missing. */
  predicate Survives(t: Table, r: Row)
    requires t.Rectangular()
  {
    forall c :: 0 <= c < t.width && c < |r.cells| && !AllMissing(t, c) ==>
      r.cells[c].Some? && r.cells[c].value >= 0.0
  }

  /** The labels of the rows, in row order: the series index. */
  function Labels(t: Table): (ts: seq<Timestamp>)
    ensures |ts| == |t.rows|
    ensures forall i :: 0 <= i < |t.rows| ==> ts[i] == t.rows[i].time
  {
    seq(|t.rows|, i requires 0 <= i < |t.rows| => t.rows[i].time)
  }

  lemma {:induction false} KeepCongruent(rows: seq<Row>, p: Row -> bool, q: Row -> bool)
    requires forall i :: 0 <= i < |rows| ==> p(rows[i]) == q(rows[i])
    ensures Keep(rows, p) == Keep(rows, q)
  {
    if rows != [] {
      KeepCongruent(rows[1..], p, q);
    }
  }

  /** Two filters in a row are one filter by their conjunction `pq`. */
  lemma {:induction false} KeepTwice(rows: seq<Row>, p: Row -> bool, q: Row -> bool, pq: Row -> bool)
    requires forall r :: pq(r) == (p(r) && q(r))
    ensures Keep(Keep(rows, p), q) == Keep(rows, pq)
  {
    if rows != [] {
      KeepTwice(rows[1..], p, q, pq);
    }
  }

  /** Filtering projected rows is projecting the rows whose projection passes the filter. */
  lemma {:induction false} KeepProjected(rows: seq<Row>, cols: seq<nat>, p: Row -> bool)
    ensures Keep(ProjectAll(rows, cols), p) == ProjectAll(Keep(rows, r => p(Project(r, cols))), cols)
  {
    if rows != [] {
      KeepProjected(rows[1..], cols, p);
      assert ProjectAll(rows, cols) == [Project(rows[0], cols)] + ProjectAll(rows[1..], cols);
      assert ProjectAll(rows, cols)[1..] == ProjectAll(rows[1..], cols);
    }
  }

  /** After the first stage, a row passes the row filters exactly when the raw row survives. */
  lemma SurvivesIffProjectionPasses(t: Table, r: Row)
    requires t.Rectangular() && |r.cells| == t.width
    ensures var p := Project(r, RetainedColumns(t));
      (Complete(p) && NonNegative(p)) == Survives(t, r)
  {
    var cols := RetainedColumns(t);
    var p := Project(r, cols);
    if NonNegative(p) {
      forall c | 0 <= c < t.width && !AllMissing(t, c)
        ensures r.cells[c].Some? && r.cells[c].value >= 0.0
      {
        var k :| 0 <= k < |cols| && cols[k] == c;
        assert p.cells[k] == r.cells[c];
      }
    }
  }

  /**
   * Cleaning keeps, in file order, exactly the raw rows that are present and not negative
   * in every column that is not entirely missing, reduced to those columns. Entirely
   * missing columns are gone before rows are filtered, so they never cause a row to be
   * dropped.
   */
  lemma CleanKeepsExactlySurvivors(t: Table)
    requires t.Rectangular()
    ensures Clean(t).width == |RetainedColumns(t)|
    ensures Clean(t).rows == ProjectAll(Keep(t.rows, r => Survives(t, r)), RetainedColumns(t))
  {
    var cols := RetainedColumns(t);
    var projected := ProjectAll(t.rows, cols);
    var both := (r: Row) => Complete(r) && NonNegative(r);
    KeepTwice(projected, Complete, NonNegative, both);
    KeepProjected(t.rows, cols, both);
    forall i | 0 <= i < |t.rows|
      ensures both(Project(t.rows[i], cols)) == Survives(t, t.rows[i])
    {
      SurvivesIffProjectionPasses(t, t.rows[i]);
    }
    KeepCongruent(t.rows, r => both(Project(r, cols)), r => Survives(t, r));
    calc {
      Clean(t).rows;
      Keep(Keep(projected, Complete), NonNegative);
      Keep(projected, both);
      ProjectAll(Keep(t.rows, r => both(Project(r, cols))), cols);
      ProjectAll(Keep(t.rows, r => Survives(t, r)), cols);
    }
  }

  /** Every cleaned row is complete and not negative in each remaining column. */
  lemma CleanedRowsAreValid(t: Table)
    requires t.Rectangular()
    ensures Clean(t).Rectangular()
    ensures forall i, c :: 0 <= i < |Clean(t).rows| && 0 <= c < Clean(t).width ==>
      Clean(t).rows[i].cells[c].Some? && Clean(t).rows[i].cells[c].value >= 0.0
  {
    var u := DropAllMissingColumns(t);
    var v := DropIncompleteRows(u);
    assert forall i :: 0 <= i < |v.rows| ==> v.rows[i] in u.rows;
  }
}
