/** src/modules/event/services/recurrence-expander.service.ts: the arithmetic that dates
    the repeats a series really has. Unlike the script's `shift`, which lets a date
    overflow into the next month, it pulls the date back to the month's last day. */
module Expander {
  import opened Basics
  import opened EcmaDate
  import opened Recurrence
  import opened SeriesOverlap

  /** The date in the month of `first`, or its last. */
  function InMonthOf(first: Civil, date: int, time: int): int {
    var lastDay := Fields(Utc(first.year, first.month + 1, 0, 0)).date;
    Utc(first.year, first.month, Least(date, lastDay), time)
  }

  function ShiftClamped(year: int, month: int, date: int, time: int): int {
    InMonthOf(Fields(Utc(year, month, 1, 0)), date, time)
  }

  /** `n` periods on from the date `c` at the time of day `time`. */
  function AddedTo(c: Civil, time: int, f: Frequency, n: nat): int {
    match f
    case DAILY => Utc(c.year, c.month, c.date + n, time)
    case WEEKLY => Utc(c.year, c.month, c.date + 7 * n, time)
    case MONTHLY => ShiftClamped(c.year, c.month + n, c.date, time)
    case YEARLY => ShiftClamped(c.year + n, c.month, c.date, time)
  }

  function AddUnits(t: int, f: Frequency, n: nat): int {
    if n == 0 then t
    else AddedTo(Fields(t), MakeTime(Hours(t), Minutes(t), Seconds(t), Milliseconds(t)), f, n)
  }

  /** The same date in month `m` of year `y`, or that month's last. */
  function ClampedDay(y: int, m: nat, date: int): int
    requires m < 12
  {
    DayNumber(y, m, Least(date, DaysInMonth(y, m)))
  }

  lemma DayFields(c: Civil)
    requires c.Valid()
    ensures Fields(DayNumber(c.year, c.month, c.date) * MS_PER_DAY) == c
  {
    CivilRoundTrip(c);
    Whole(DayNumber(c.year, c.month, c.date));
  }

  lemma Whole(d: int)
    ensures d * MS_PER_DAY / MS_PER_DAY == d
  {
  }

  lemma UtcDay(year: int, month: int, date: int, time: int, y: int, m: nat)
    requires year >= 100 && m < 12 && y == year + month / 12 && m == month % 12
    ensures Utc(year, month, date, time) == DayNumber(y, m, date) * MS_PER_DAY + time
  {
  }

  lemma Normalised(year: int, month: int, y: int, m: nat)
    requires year >= 100 && m < 12 && y == year + month / 12 && m == month % 12
    ensures Fields(Utc(year, month, 1, 0)) == Civil(y, m, 1)
  {
    MonthLengths(y, m);
    DayFields(Civil(y, m, 1));
    UtcDay(year, month, 1, 0, y, m);
  }

  /** Day 0 of the next month is the last of this one. */
  lemma LastDay(y: int, m: nat)
    requires y >= 100 && m < 12
    ensures Fields(Utc(y, m + 1, 0, 0)) == Civil(y, m, DaysInMonth(y, m))
  {
    MonthLengths(y, m);
    DayFields(Civil(y, m, DaysInMonth(y, m)));
    NextMonth(y, m, 0);
    UtcDay(y, m + 1, 0, 0, y + (m + 1) / 12, (m + 1) % 12);
  }

  lemma InMonthOfDay(y: int, m: nat, date: int, time: int)
    requires y >= 100 && m < 12
    ensures InMonthOf(Civil(y, m, 1), date, time) == ClampedDay(y, m, date) * MS_PER_DAY + time
  {
    LastDay(y, m);
    UtcDay(y, m, Least(date, DaysInMonth(y, m)), time, y, m);
  }

  /** Going through `Date.UTC` twice finds the month meant and its last day. */
  lemma ShiftClampedDay(year: int, month: int, date: int, time: int, y: int, m: nat)
    requires year >= 100 && y >= 100 && m < 12 && y == year + month / 12 && m == month % 12
    ensures ShiftClamped(year, month, date, time) == ClampedDay(y, m, date) * MS_PER_DAY + time
  {
    Normalised(year, month, y, m);
    InMonthOfDay(y, m, date, time);
  }

  // ------------------------------------------------- the repeats as written

  /** The day the n-th month after the anchor's January gives the date. */
  function MonthDay(y: int, n: nat, date: int): int {
    ClampedDay(y + n / 12, n % 12, date)
  }

  /** The day of the n-th repeat. */
  function RepeatedDay(c: Civil, f: Frequency, n: nat): int
    requires c.Valid()
  {
    match f
    case DAILY => DayNumber(c.year, c.month, c.date) + n
    case WEEKLY => DayNumber(c.year, c.month, c.date) + 7 * n
    case MONTHLY => MonthDay(c.year, c.month + n, c.date)
    case YEARLY => ClampedDay(c.year + n, c.month, c.date)
  }

  lemma RepeatedZero(c: Civil, f: Frequency)
    requires c.Valid()
    ensures RepeatedDay(c, f, 0) == DayNumber(c.year, c.month, c.date)
  {
    assert c.month / 12 == 0 && c.month % 12 == c.month;
  }

  lemma MonthDayIs(year: int, i: nat, date: int, y: int, m: nat)
    requires y == year + i / 12 && m == i % 12
    ensures MonthDay(year, i, date) == ClampedDay(y, m, date)
  {
  }

  lemma AddMonths(c: Civil, time: int, n: nat, i: nat, y: int, m: nat)
    requires c.Valid() && c.year >= 100 && i == c.month + n && y == c.year + i / 12 && m == i % 12
    ensures AddedTo(c, time, MONTHLY, n) == MonthDay(c.year, i, c.date) * MS_PER_DAY + time
  {
    hide ShiftClamped, ClampedDay, MonthDay, Civil.Valid;
    ShiftClampedDay(c.year, i, c.date, time, y, m);
    MonthDayIs(c.year, i, c.date, y, m);
  }

  lemma AddYears(c: Civil, time: int, n: nat, y: int)
    requires c.Valid() && c.year >= 100 && y == c.year + n
    ensures AddedTo(c, time, YEARLY, n) == ClampedDay(y, c.month, c.date) * MS_PER_DAY + time
  {
    hide ShiftClamped, ClampedDay;
    assert c.month / 12 == 0 && c.month % 12 == c.month;
    ShiftClampedDay(y, c.month, c.date, time, y, c.month);
  }

  lemma AddDays(c: Civil, time: int, f: Frequency, n: nat, days: int)
    requires c.Valid() && c.year >= 100 && (f == DAILY || f == WEEKLY) && days == if f == DAILY then n else 7 * n
    ensures AddedTo(c, time, f, n) == (DayNumber(c.year, c.month, c.date) + days) * MS_PER_DAY + time
  {
    hide Utc;
    assert c.month / 12 == 0 && c.month % 12 == c.month;
    UtcDay(c.year, c.month, c.date + days, time, c.year, c.month);
  }

  lemma AddedDay(c: Civil, time: int, f: Frequency, n: nat)
    requires c.Valid() && c.year >= 100
    ensures AddedTo(c, time, f, n) == RepeatedDay(c, f, n) * MS_PER_DAY + time
  {
    hide AddedTo, ClampedDay, MonthDay, DayNumber, Utc, ShiftClamped;
    match f
    case DAILY => AddDays(c, time, f, n, n);
    case WEEKLY => AddDays(c, time, f, n, 7 * n);
    case MONTHLY => AddMonths(c, time, n, c.month + n, c.year + (c.month + n) / 12, (c.month + n) % 12);
    case YEARLY => AddYears(c, time, n, c.year + n);
  }

  /** Every repeat keeps the time of day and falls on the anchor's date, or on the last
      of a shorter month, counted from the anchor and not from the repeat before. */
  lemma AddUnitsDay(t: int, f: Frequency, n: nat)
    requires Fields(t).year >= 100
    ensures AddUnits(t, f, n) == RepeatedDay(Fields(t), f, n) * MS_PER_DAY + t % MS_PER_DAY
  {
    TimeOfDay(t);
    if n == 0 {
      RepeatedZero(Fields(t), f);
    } else {
      AddedDay(Fields(t), t % MS_PER_DAY, f, n);
    }
  }

  // ------------------------------------------------- the script's step and the expander's

  /** The month a first step lands in. */
  function LandingLength(c: Civil, f: Frequency): int
    requires c.Valid()
  {
    if f == MONTHLY then LengthOfMonth(c.year, c.month + 1) else DaysInMonth(c.year + 1, c.month)
  }

  lemma FirstMonthDays(c: Civil, i: nat)
    requires c.Valid() && i == c.month + 1
    ensures RepeatDay(c, MONTHLY, 1) - MonthDay(c.year, i, c.date) == c.date - Least(c.date, LengthOfMonth(c.year, i))
  {
    RepeatDayOfMonth(c, 1, i);
  }

  lemma FirstYearDays(c: Civil)
    requires c.Valid()
    ensures RepeatDay(c, YEARLY, 1) - ClampedDay(c.year + 1, c.month, c.date) ==
              c.date - Least(c.date, DaysInMonth(c.year + 1, c.month))
  {
    InYear(c.year + 1, c.month, c.date);
  }

  lemma FirstRepeatDays(c: Civil, f: Frequency)
    requires c.Valid()
    ensures RepeatDay(c, f, 1) - RepeatedDay(c, f, 1) ==
              if f == DAILY || f == WEEKLY then 0
              else c.date - Least(c.date, LandingLength(c, f))
  {
    match f
    case DAILY => InYear(c.year, c.month, c.date + 1);
    case WEEKLY => InYear(c.year, c.month, c.date + 7);
    case MONTHLY => FirstMonthDays(c, c.month + 1);
    case YEARLY => FirstYearDays(c);
  }

  /** The script says its step matches the expander's. It does exactly when the anchor's
      date exists in the month it lands in; otherwise the script measures the interval
      too long, by as many days as the date overflows. */
  lemma StepMatchesExpanderIff(t: int, f: Frequency)
    requires Fields(t).year >= 100
    ensures var c := Fields(t);
            var over := if f == DAILY || f == WEEKLY then 0 else c.date - Least(c.date, LandingLength(c, f));
            && over >= 0
            && Repeat(t, f, 1) == AddUnits(t, f, 1) + over * MS_PER_DAY
            && (Repeat(t, f, 1) == AddUnits(t, f, 1) <==>
                  f == DAILY || f == WEEKLY || c.date <= LandingLength(c, f))
  {
    var c := Fields(t);
    RepeatAt(t, f, 1);
    AddUnitsDay(t, f, 1);
    FirstRepeatDays(c, f);
    Both(Repeat(t, f, 1), AddUnits(t, f, 1), t, RepeatDay(c, f, 1), RepeatedDay(c, f, 1));
  }

  lemma Both(x: int, y: int, t: int, a: int, b: int)
    requires x == t + (a - t / MS_PER_DAY) * MS_PER_DAY && y == b * MS_PER_DAY + t % MS_PER_DAY
    ensures x == y + (a - b) * MS_PER_DAY
  {
  }
}
