/** The calendar of section 21.4.1 of ECMA-262, as far as `Date.UTC` and the UTC getters
    of `Date` use it. Time values are milliseconds since 1970, possibly negative. */
module EcmaDate {
  import opened Basics

  const MS_PER_DAY: int := 86_400_000
  const MS_PER_HOUR: int := 3_600_000
  const MS_PER_MINUTE: int := 60_000
  const MS_PER_SECOND: int := 1000
  const MAX_TIME: int := 8_640_000_000_000_000

  predicate Leap(y: int) {
    y % 4 == 0 && (y % 100 != 0 || y % 400 == 0)
  }

  function DaysInYear(y: int): int {
    if Leap(y) then 366 else 365
  }

  /** The day number of the first of January, counting year by year from 1970. */
  function DayFromYear(y: int): int
    decreases if y < 1970 then 1970 - y else y - 1970
  {
    if y == 1970 then 0
    else if y > 1970 then DayFromYear(y - 1) + DaysInYear(y - 1)
    else DayFromYear(y + 1) - DaysInYear(y)
  }

  /** The closed form the standard gives. Its divisions round down, below zero too. */
  lemma {:induction false} DayFromYearFormula(y: int)
    ensures DayFromYear(y) == 365 * (y - 1970) + (y - 1969) / 4 - (y - 1901) / 100 + (y - 1601) / 400
    decreases if y < 1970 then 1970 - y else y - 1970
  {
    if y > 1970 {
      DayFromYearFormula(y - 1);
      FormulaStep(y - 1);
    } else if y < 1970 {
      DayFromYearFormula(y + 1);
      FormulaStep(y);
    }
  }

  lemma FormulaStep(y: int)
    ensures (y - 1968) / 4 - (y - 1900) / 100 + (y - 1600) / 400 + 365 ==
              (y - 1969) / 4 - (y - 1901) / 100 + (y - 1601) / 400 + DaysInYear(y)
  {
    assert (y - 1968) / 4 == (y - 1969) / 4 + if y % 4 == 0 then 1 else 0;
    assert (y - 1900) / 100 == (y - 1901) / 100 + if y % 100 == 0 then 1 else 0;
    assert (y - 1600) / 400 == (y - 1601) / 400 + if y % 400 == 0 then 1 else 0;
  }

  lemma NextYear(y: int)
    ensures DayFromYear(y + 1) == DayFromYear(y) + DaysInYear(y)
  {
  }

  lemma {:induction false} YearsApart(y: int, z: int)
    requires y <= z
    ensures DayFromYear(y) + 365 * (z - y) <= DayFromYear(z) <= DayFromYear(y) + 366 * (z - y)
    decreases z - y
  {
    if y < z {
      NextYear(y);
      YearsApart(y + 1, z);
    }
  }

  /** Days of the year before month `m`, counted from 0; month 12 is the year's end. */
  function MonthStart(m: nat, leap: bool): int
    requires m <= 12
  {
    [0, 31, 59, 90, 120, 151, 181, 212, 243, 273, 304, 334, 365][m] + if leap && m >= 2 then 1 else 0
  }

  function DaysInMonth(y: int, m: nat): int
    requires m < 12
  {
    MonthStart(m + 1, Leap(y)) - MonthStart(m, Leap(y))
  }

  lemma MonthLengths(y: int, m: nat)
    requires m < 12
    ensures 28 <= DaysInMonth(y, m) <= 31
    ensures DaysInMonth(y, m) == if m == 1 then (if Leap(y) then 29 else 28)
                                 else if m in {3, 5, 8, 10} then 30 else 31
    ensures MonthStart(12, Leap(y)) == DaysInYear(y)
  {
  }

  // ------------------------------------------------- from days to fields

  /** The year that holds day `d`, looked for upwards from a year that begins with
      `first`, and downwards from one that does. */
  function SearchedUp(d: int, y: int, first: int): (r: int)
    requires first == DayFromYear(y) && first <= d
    ensures DayFromYear(r) <= d < DayFromYear(r) + DaysInYear(r)
    decreases d - first
  {
    if d < first + DaysInYear(y) then y
    else
      NextYear(y);
      SearchedUp(d, y + 1, first + DaysInYear(y))
  }

  function SearchedDown(d: int, y: int, first: int): (r: int)
    requires first == DayFromYear(y) && d < first
    ensures DayFromYear(r) <= d < DayFromYear(r) + DaysInYear(r)
    decreases first - d
  {
    NextYear(y - 1);
    if d >= first - DaysInYear(y - 1) then y - 1 else SearchedDown(d, y - 1, first - DaysInYear(y - 1))
  }

  /** The year the day falls in. */
  function YearOfDay(d: int): (y: int)
    ensures DayFromYear(y) <= d < DayFromYear(y) + DaysInYear(y)
  {
    if d >= 0 then SearchedUp(d, 1970, 0) else SearchedDown(d, 1970, 0)
  }

  function MonthOfYearDay(n: int, leap: bool): (m: nat)
    requires 0 <= n < MonthStart(12, leap)
    ensures m < 12 && MonthStart(m, leap) <= n < MonthStart(m + 1, leap)
  {
    if n < MonthStart(1, leap) then 0
    else if n < MonthStart(2, leap) then 1
    else if n < MonthStart(3, leap) then 2
    else if n < MonthStart(4, leap) then 3
    else if n < MonthStart(5, leap) then 4
    else if n < MonthStart(6, leap) then 5
    else if n < MonthStart(7, leap) then 6
    else if n < MonthStart(8, leap) then 7
    else if n < MonthStart(9, leap) then 8
    else if n < MonthStart(10, leap) then 9
    else if n < MonthStart(11, leap) then 10
    else 11
  }

  datatype Civil = Civil(year: int, month: nat, date: int)
  {
    predicate Valid() { month < 12 && 1 <= date <= DaysInMonth(year, month) }
  }

  /** The day number of a date; the date may lie outside its month. */
  function DayNumber(y: int, m: nat, date: int): int
    requires m < 12
  {
    DayFromYear(y) + MonthStart(m, Leap(y)) + date - 1
  }

  /** Year, month and date of a day number. */
  function CivilOf(d: int): (c: Civil)
    ensures c.Valid() && DayNumber(c.year, c.month, c.date) == d
  {
    var y := YearOfDay(d);
    MonthLengths(y, 0);
    var m := MonthOfYearDay(d - DayFromYear(y), Leap(y));
    Civil(y, m, d - DayFromYear(y) - MonthStart(m, Leap(y)) + 1)
  }

  lemma MonthsIncrease(m: nat, n: nat, leap: bool)
    requires m < n <= 12
    ensures MonthStart(m + 1, leap) <= MonthStart(n, leap)
  {
  }

  lemma YearUnique(d: int, y: int, z: int)
    requires DayFromYear(y) <= d < DayFromYear(y) + DaysInYear(y)
    requires DayFromYear(z) <= d < DayFromYear(z) + DaysInYear(z)
    ensures y == z
  {
    if y < z { YearsApart(y + 1, z); NextYear(y); }
    if z < y { YearsApart(z + 1, y); NextYear(z); }
  }

  lemma MonthUnique(n: int, m: nat, k: nat, leap: bool)
    requires m < 12 && k < 12
    requires MonthStart(m, leap) <= n < MonthStart(m + 1, leap) && MonthStart(k, leap) <= n < MonthStart(k + 1, leap)
    ensures m == k
  {
    if m < k { MonthsIncrease(m, k, leap); }
    if k < m { MonthsIncrease(k, m, leap); }
  }

  lemma MonthsBound(c: Civil)
    requires c.Valid()
    ensures DayFromYear(c.year) <= DayNumber(c.year, c.month, c.date) < DayFromYear(c.year) + DaysInYear(c.year)
  {
    MonthLengths(c.year, c.month);
    if c.month < 11 { MonthsIncrease(c.month, 12, Leap(c.year)); }
    if c.month > 0 { MonthsIncrease(0, c.month, Leap(c.year)); }
  }

  lemma CivilUnique(c: Civil, r: Civil)
    requires c.Valid() && r.Valid() && DayNumber(c.year, c.month, c.date) == DayNumber(r.year, r.month, r.date)
    ensures c == r
  {
    var d := DayNumber(c.year, c.month, c.date);
    MonthsBound(c);
    MonthsBound(r);
    YearUnique(d, c.year, r.year);
    var n := d - DayFromYear(c.year);
    assert n == MonthStart(c.month, Leap(c.year)) + c.date - 1;
    assert n == MonthStart(r.month, Leap(c.year)) + r.date - 1;
    MonthUnique(n, c.month, r.month, Leap(c.year));
  }

  /** A valid date is the only one with its day number. */
  lemma CivilRoundTrip(c: Civil)
    requires c.Valid()
    ensures CivilOf(DayNumber(c.year, c.month, c.date)) == c
  {
    CivilUnique(c, CivilOf(DayNumber(c.year, c.month, c.date)));
  }

  // ------------------------------------------------- Date.UTC and the getters

  function Fields(t: int): (c: Civil)
    ensures c.Valid()
  {
    CivilOf(t / MS_PER_DAY)
  }

  function Hours(t: int): int { t / MS_PER_HOUR % 24 }
  function Minutes(t: int): int { t / MS_PER_MINUTE % 60 }
  function Seconds(t: int): int { t / MS_PER_SECOND % 60 }
  function Milliseconds(t: int): int { t % 1000 }

  function MakeTime(h: int, min: int, s: int, ms: int): int {
    h * MS_PER_HOUR + min * MS_PER_MINUTE + s * MS_PER_SECOND + ms
  }

  lemma TimeOfDay(t: int)
    ensures MakeTime(Hours(t), Minutes(t), Seconds(t), Milliseconds(t)) == t % MS_PER_DAY
    ensures t == t / MS_PER_DAY * MS_PER_DAY + t % MS_PER_DAY
  {
    var s := t / 1000;
    var m := s / 60;
    var h := m / 60;
    assert t / MS_PER_MINUTE == m;
    assert t / MS_PER_HOUR == h;
    assert t / MS_PER_DAY == h / 24;
  }

  /** Months beyond the year carry into other years, dates beyond the month into other
      months. */
  function MakeDay(year: int, month: int, date: int): int {
    DayNumber(year + month / 12, month % 12, date)
  }

  /** `Date.UTC` reads years 0 to 99 as 1900 to 1999. */
  function MakeFullYear(year: int): int {
    if 0 <= year <= 99 then 1900 + year else year
  }

  /** `Date.UTC` of the fields with the time of day `ms`, before TimeClip. */
  function Utc(year: int, month: int, date: int, ms: int): int {
    MakeDay(MakeFullYear(year), month, date) * MS_PER_DAY + ms
  }

  /** A two-digit year is the one in the twentieth century, any other itself. */
  lemma TwoDigitYears(year: int, month: int, date: int, ms: int)
    ensures Utc(year, month, date, ms) ==
              (if 0 <= year < 100 then Utc(1900 + year, month, date, ms) else MakeDay(year, month, date) * MS_PER_DAY + ms)
  {
  }

  /** Times more than a hundred million days from 1970 are no times. */
  function TimeClip(t: int): Option<int> {
    if -MAX_TIME <= t <= MAX_TIME then Some(t) else None
  }
}
