/** Proleptic Gregorian calendar arithmetic for the index timestamps of a station file. */
module Calendar {

  const SecondsPerDay: int := 86400

  /** A timestamp label as written in the file: calendar fields and the second of the day. */
  datatype Timestamp = Timestamp(year: int, month: int, day: int, second: int)

  predicate IsLeapYear(y: int) {
    y % 4 == 0 && (y % 100 != 0 || y % 400 == 0)
  }

  function DaysInYear(y: int): int {
    if IsLeapYear(y) then 366 else 365
  }

  function DaysInMonth(y: int, m: int): int
    requires 1 <= m <= 12
  {
    if m == 2 then (if IsLeapYear(y) then 29 else 28)
    else if m == 4 || m == 6 || m == 9 || m == 11 then 30
    else 31
  }

  /** Days of year `y` that lie before the first of month `m`. */
  function DaysBeforeMonth(y: int, m: int): int
    requires 1 <= m <= 12
  {
    var leap := if IsLeapYear(y) then 1 else 0;
    if m == 1 then 0 else if m == 2 then 31
    else [59, 90, 120, 151, 181, 212, 243, 273, 304, 334][m - 3] + leap
  }

  /** A label that the timestamp parser accepts: an existing calendar date and time of day. */
  predicate IsValid(t: Timestamp) {
    1 <= t.month <= 12 && 1 <= t.day <= DaysInMonth(t.year, t.month) &&
    0 <= t.second < SecondsPerDay
  }

  /** Leap years in 1 .. y (counted with floor division, so also right for y <= 0). */
  function LeapsUpTo(y: int): int {
    y / 4 - y / 100 + y / 400
  }

  /** Day number of January 1 of year `y`, counted from 1970-01-01. */
  function DaysBeforeYear(y: int): int {
    365 * (y - 1970) + LeapsUpTo(y - 1) - LeapsUpTo(1969)
  }

  /** Seconds since 1970-01-01T00:00:00 of a valid timestamp. */
  function EpochSeconds(t: Timestamp): int
    requires IsValid(t)
  {
    (DaysBeforeYear(t.year) + DaysBeforeMonth(t.year, t.month) + t.day - 1) * SecondsPerDay + t.second
  }

  /** The whole days in a span of seconds, floored as a timedelta's `days` component is. */
  function WholeDays(seconds: int): (d: int)
    ensures d * SecondsPerDay <= seconds < (d + 1) * SecondsPerDay
  {
    seconds / SecondsPerDay
  }

  /** Floor division by 4, 100 and 400 steps up by one exactly at the multiples of each. */
  lemma DivSteps(y: int)
    ensures y / 4 - (y - 1) / 4 == if y % 4 == 0 then 1 else 0
    ensures y / 100 - (y - 1) / 100 == if y % 100 == 0 then 1 else 0
    ensures y / 400 - (y - 1) / 400 == if y % 400 == 0 then 1 else 0
  {
    var q4, r4 := (y - 1) / 4, (y - 1) % 4;
    if r4 == 3 { assert y == 4 * (q4 + 1); } else { assert y == 4 * q4 + (r4 + 1); }
    var q100, r100 := (y - 1) / 100, (y - 1) % 100;
    if r100 == 99 { assert y == 100 * (q100 + 1); } else { assert y == 100 * q100 + (r100 + 1); }
    var q400, r400 := (y - 1) / 400, (y - 1) % 400;
    if r400 == 399 { assert y == 400 * (q400 + 1); } else { assert y == 400 * q400 + (r400 + 1); }
  }

  lemma CenturyDivisibleByFour(y: int)
    requires y % 100 == 0
    ensures y % 4 == 0
  {
    var k := y / 100;
    assert y == 4 * (25 * k);
  }

  lemma QuadricentennialIsCentury(y: int)
    requires y % 400 == 0
    ensures y % 100 == 0
  {
    var k := y / 400;
    assert y == 100 * (4 * k);
  }

  lemma LeapStep(y: int)
    ensures LeapsUpTo(y) - LeapsUpTo(y - 1) == if IsLeapYear(y) then 1 else 0
  {
    DivSteps(y);
    if y % 100 == 0 {
      CenturyDivisibleByFour(y);
    }
    if y % 400 == 0 {
      QuadricentennialIsCentury(y);
    }
  }

  lemma YearLength(y: int)
    ensures DaysBeforeYear(y + 1) - DaysBeforeYear(y) == DaysInYear(y)
  {
    LeapStep(y);
  }

  lemma MonthsFitInYear(y: int, m: int)
    requires 1 <= m <= 12
    ensures DaysBeforeMonth(y, m) + DaysInMonth(y, m) <= DaysInYear(y)
  {
  }

  lemma {:induction false} DaysBeforeYearMonotone(y1: int, y2: int)
    requires y1 <= y2
    ensures DaysBeforeYear(y1) <= DaysBeforeYear(y2)
    decreases y2 - y1
  {
    if y1 < y2 {
      YearLength(y1);
      DaysBeforeYearMonotone(y1 + 1, y2);
    }
  }

  /** Every valid timestamp of year `y` falls before January 1 of year `y + 1`. */
  lemma WithinItsYear(t: Timestamp)
    requires IsValid(t)
    ensures DaysBeforeYear(t.year) * SecondsPerDay <= EpochSeconds(t) < DaysBeforeYear(t.year + 1) * SecondsPerDay
  {
    MonthsFitInYear(t.year, t.month);
    YearLength(t.year);
    var dayIndex := DaysBeforeMonth(t.year, t.month) + t.day - 1;
    assert 0 <= dayIndex < DaysInYear(t.year);
  }

  /** Calendar years and instants are ordered alike: a later year is a later instant. */
  lemma YearOrderIsTimeOrder(a: Timestamp, b: Timestamp)
    requires IsValid(a) && IsValid(b) && a.year < b.year
    ensures EpochSeconds(a) < EpochSeconds(b)
  {
    WithinItsYear(a);
    WithinItsYear(b);
    DaysBeforeYearMonotone(a.year + 1, b.year);
  }
}
