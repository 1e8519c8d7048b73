/** scripts/repair-overlapping-series.ts: how far one repeat of a series lasts, and when
    the repeats of a series overlap; beside it the expander that writes the repeats
    (src/modules/event/services/recurrence-expander.service.ts). */
module Recurrence {
  import opened Basics
  import opened EcmaDate

  datatype Frequency = DAILY | WEEKLY | MONTHLY | YEARLY

  datatype By = By(years: int, months: int, days: int)

  function Units(f: Frequency, k: int): By {
    match f
    case DAILY => By(0, 0, k)
    case WEEKLY => By(0, 0, 7 * k)
    case MONTHLY => By(0, k, 0)
    case YEARLY => By(k, 0, 0)
  }

  /** `shift`, before the result is checked to be a time at all: the UTC fields of `t`
      with `amount` added to them, out of their ranges or not. */
  function Shifted(t: int, amount: By): int {
    var c := Fields(t);
    Utc(c.year + amount.years, c.month + amount.months, c.date + amount.days,
        MakeTime(Hours(t), Minutes(t), Seconds(t), Milliseconds(t)))
  }

  function Shift(t: int, amount: By): Option<int> {
    TimeClip(Shifted(t, amount))
  }

  /** None stands for NaN, which nothing is at least as long as. */
  function IntervalMs(t: int, f: Frequency): Option<int> {
    match Shift(t, Units(f, 1))
    case None => None
    case Some(next) => Some(next - t)
  }

  /** Years 0 to 99 are the ones `Date.UTC` takes for the twentieth century. */
  predicate TwoDigits(year: int) { 0 <= year <= 99 }

  /** Days moved by a shift: the day number reached less the one left. */
  function DaysMoved(t: int, amount: By): int {
    var c := Fields(t);
    MakeDay(MakeFullYear(c.year + amount.years), c.month + amount.months, c.date + amount.days) -
    DayNumber(c.year, c.month, c.date)
  }

  /** A shift keeps the time of day. */
  lemma WholeDays(t: int, amount: By)
    ensures Shifted(t, amount) == t + DaysMoved(t, amount) * MS_PER_DAY
  {
    TimeOfDay(t);
    var c := Fields(t);
    var before := DayNumber(c.year, c.month, c.date);
    var after := MakeDay(MakeFullYear(c.year + amount.years), c.month + amount.months, c.date + amount.days);
    Multiply(t, before, after);
  }

  lemma MovedIff(t: int, amount: By, days: int)
    ensures Shifted(t, amount) - t == days * MS_PER_DAY <==> DaysMoved(t, amount) == days
  {
    WholeDays(t, amount);
    Scaled(Shifted(t, amount) - t, DaysMoved(t, amount), days);
  }

  lemma Scaled(ms: int, a: int, b: int)
    requires ms == a * MS_PER_DAY
    ensures ms == b * MS_PER_DAY <==> a == b
  {
  }

  lemma Multiply(t: int, before: int, after: int)
    requires t / MS_PER_DAY == before
    ensures after * MS_PER_DAY + t % MS_PER_DAY == t + (after - before) * MS_PER_DAY
  {
  }

  /** In years 0 to 99 a step lands nineteen centuries away. */
  lemma CenturiesAway(y: int, z: int, m: nat, n: nat, date: int, more: int)
    requires TwoDigits(z) && m < 12 && n < 12 && z - 1 <= y <= z + 1 && -366 <= more
    ensures DayNumber(MakeFullYear(z), n, date + more) - DayNumber(y, m, date) > 10_000
    ensures DayNumber(MakeFullYear(z) + 1, n, date + more) - DayNumber(y, m, date) > 10_000
  {
    YearsApart(y, z + 1900);
    YearsApart(y, z + 1901);
  }

  lemma InYear(y: int, m: nat, date: int)
    requires m < 12
    ensures MakeDay(y, m, date) == DayNumber(y, m, date)
  {
    assert m / 12 == 0 && m % 12 == m;
  }

  lemma DaysMovedByDays(c: Civil, days: nat)
    requires c.Valid()
    requires days <= 10_000
    ensures MakeDay(MakeFullYear(c.year), c.month, c.date + days) - DayNumber(c.year, c.month, c.date) == days <==>
              !TwoDigits(c.year)
  {
    InYear(MakeFullYear(c.year), c.month, c.date + days);
    if TwoDigits(c.year) {
      CenturiesAway(c.year, c.year, c.month, c.month, c.date, days);
    }
  }

  lemma DayStepDays(t: int, f: Frequency)
    requires f.DAILY? || f.WEEKLY?
    ensures DaysMoved(t, Units(f, 1)) == (if f.DAILY? then 1 else 7) <==> !TwoDigits(Fields(t).year)
  {
    hide MakeDay, DayNumber, CivilOf, TwoDigits;
    DaysMovedByDays(Fields(t), if f.DAILY? then 1 else 7);
  }

  /** One day or one week, unless the year is a two-digit one. */
  lemma DaysStep(t: int, f: Frequency)
    requires f.DAILY? || f.WEEKLY?
    ensures Shifted(t, Units(f, 1)) - t == (if f.DAILY? then 1 else 7) * MS_PER_DAY <==> !TwoDigits(Fields(t).year)
  {
    hide Shifted, DaysMoved, CivilOf;
    DayStepDays(t, f);
    MovedIff(t, Units(f, 1), if f.DAILY? then 1 else 7);
  }

  /** A month on from a month: the next one's first is this one's length away. */
  lemma NextMonth(y: int, m: nat, date: int)
    requires m < 12
    ensures MakeDay(y, m + 1, date) - DayNumber(y, m, date) == DaysInMonth(y, m)
    ensures MakeDay(y, m + 1, date) == DayNumber(if m < 11 then y else y + 1, (m + 1) % 12, date)
  {
    if m < 11 {
      InYear(y, m + 1, date);
    } else {
      assert 12 / 12 == 1 && 12 % 12 == 0;
      NextYear(y);
      MonthLengths(y, m);
    }
  }

  lemma DaysMovedByMonth(c: Civil)
    requires c.Valid()
    ensures var moved := MakeDay(MakeFullYear(c.year), c.month + 1, c.date) - DayNumber(c.year, c.month, c.date);
            moved == DaysInMonth(c.year, c.month) <==> !TwoDigits(c.year)
  {
    NextMonth(MakeFullYear(c.year), c.month, c.date);
    if TwoDigits(c.year) {
      MonthLengths(c.year, c.month);
      CenturiesAway(c.year, c.year, c.month, (c.month + 1) % 12, c.date, 0);
    }
  }

  lemma MonthStepDays(t: int)
    ensures var c := Fields(t);
            DaysMoved(t, Units(MONTHLY, 1)) == DaysInMonth(c.year, c.month) <==> !TwoDigits(c.year)
  {
    hide MakeDay, DayNumber, DaysInMonth, CivilOf, TwoDigits;
    DaysMovedByMonth(Fields(t));
  }

  /** One month is as long as the month it starts in, overflow or not: 31 January plus
      one month is 31 days later. Only two-digit years break it. */
  lemma MonthStep(t: int)
    ensures var c := Fields(t);
            Shifted(t, Units(MONTHLY, 1)) - t == DaysInMonth(c.year, c.month) * MS_PER_DAY <==> !TwoDigits(c.year)
  {
    hide Shifted, DaysMoved, CivilOf, DaysInMonth;
    MonthStepDays(t);
    MovedIff(t, Units(MONTHLY, 1), DaysInMonth(Fields(t).year, Fields(t).month));
  }

  /** A 29 February from the first of month `m` of year `y` up to the same a year on. */
  predicate LeapDayWithin(y: int, m: nat)
    requires m < 12
  {
    exists z :: y <= z <= y + 1 && Leap(z) &&
                DayNumber(y, m, 1) <= DayNumber(z, 1, 29) < DayNumber(y + 1, m, 1)
  }

  lemma LeapDays(y: int, m: nat)
    requires m < 12
    ensures LeapDayWithin(y, m) <==> Leap(if m < 2 then y else y + 1)
    ensures DayNumber(y + 1, m, 1) - DayNumber(y, m, 1) == if LeapDayWithin(y, m) then 366 else 365
  {
    NextYear(y);
    var z := if m < 2 then y else y + 1;
    if Leap(z) {
      assert y <= z <= y + 1 && DayNumber(y, m, 1) <= DayNumber(z, 1, 29) < DayNumber(y + 1, m, 1);
    }
  }

  lemma DaysMovedByYear(c: Civil, days: int)
    requires c.Valid() && days == if LeapDayWithin(c.year, c.month) then 366 else 365
    ensures var moved := MakeDay(MakeFullYear(c.year + 1), c.month, c.date) - DayNumber(c.year, c.month, c.date);
            moved == days <==> !TwoDigits(c.year + 1)
  {
    InYear(MakeFullYear(c.year + 1), c.month, c.date);
    if TwoDigits(c.year + 1) {
      CenturiesAway(c.year, c.year + 1, c.month, c.month, c.date, 0);
    } else {
      LeapDays(c.year, c.month);
    }
  }

  lemma YearStepDays(t: int, days: int)
    requires days == if LeapDayWithin(Fields(t).year, Fields(t).month) then 366 else 365
    ensures DaysMoved(t, Units(YEARLY, 1)) == days <==> !TwoDigits(Fields(t).year + 1)
  {
    hide MakeDay, DayNumber, LeapDayWithin, CivilOf, TwoDigits;
    DaysMovedByYear(Fields(t), days);
  }

  /** One year is 366 days long when a 29 February falls between the two month starts
      and 365 otherwise. Only landing in a two-digit year breaks it. */
  lemma YearStep(t: int)
    ensures var c := Fields(t);
            var days := if LeapDayWithin(c.year, c.month) then 366 else 365;
            Shifted(t, Units(YEARLY, 1)) - t == days * MS_PER_DAY <==> !TwoDigits(c.year + 1)
  {
    hide Shifted, DaysMoved, CivilOf, LeapDayWithin;
    var days := if LeapDayWithin(Fields(t).year, Fields(t).month) then 366 else 365;
    YearStepDays(t, days);
    MovedIff(t, Units(YEARLY, 1), days);
  }

  // ------------------------------------------------- every repeat of a series

  /** When the k-th repeat after `t` starts, counted from `t` by the script's own step. */
  function Repeat(t: int, f: Frequency, k: nat): int {
    Shifted(t, Units(f, k))
  }

  /** The length of the n-th month after the January of year `y`. */
  function LengthOfMonth(y: int, n: nat): int {
    DaysInMonth(y + n / 12, n % 12)
  }

  /** Days from repeat k to repeat k + 1. */
  function Gap(c: Civil, f: Frequency, k: nat): int
    requires c.Valid()
  {
    match f
    case DAILY => 1
    case WEEKLY => 7
    case MONTHLY => LengthOfMonth(c.year, c.month + k)
    case YEARLY => DaysInYear(if c.month < 2 then c.year + k else c.year + k + 1)
  }

  lemma MonthGap(y: int, n: nat, date: int)
    ensures MakeDay(y, n + 1, date) - MakeDay(y, n, date) == LengthOfMonth(y, n)
  {
    CarryMonth(n);
    NextMonth(y + n / 12, n % 12, date);
  }

  lemma YearGap(y: int, m: nat, date: int)
    requires m < 12
    ensures MakeDay(y + 1, m, date) - MakeDay(y, m, date) == DaysInYear(if m < 2 then y else y + 1)
  {
    InYear(y, m, date);
    InYear(y + 1, m, date);
    LeapDays(y, m);
  }

  lemma DayGap(y: int, m: nat, date: int, days: int)
    requires m < 12
    ensures MakeDay(y, m, date + days) - MakeDay(y, m, date) == days
  {
  }

  function RepeatDay(c: Civil, f: Frequency, k: nat): int {
    var u := Units(f, k);
    MakeDay(c.year + u.years, c.month + u.months, c.date + u.days)
  }

  lemma RepeatDayOfMonth(c: Civil, k: nat, n: nat)
    requires c.Valid() && n == c.month + k
    ensures RepeatDay(c, MONTHLY, k) == MakeDay(c.year, n, c.date)
  {
  }

  lemma RepeatDayGapMonths(c: Civil, k: nat, n: nat)
    requires c.Valid() && n == c.month + k
    ensures RepeatDay(c, MONTHLY, k + 1) - RepeatDay(c, MONTHLY, k) == Gap(c, MONTHLY, k)
  {
    RepeatDayOfMonth(c, k, n);
    RepeatDayOfMonth(c, k + 1, n + 1);
    MonthGap(c.year, n, c.date);
  }

  lemma RepeatDayGapYears(c: Civil, k: nat)
    requires c.Valid()
    ensures RepeatDay(c, YEARLY, k + 1) - RepeatDay(c, YEARLY, k) == Gap(c, YEARLY, k)
  {
    YearGap(c.year + k, c.month, c.date);
  }

  lemma RepeatDayGapDays(c: Civil, f: Frequency, k: nat)
    requires c.Valid() && (f == DAILY || f == WEEKLY)
    ensures RepeatDay(c, f, k + 1) - RepeatDay(c, f, k) == Gap(c, f, k)
  {
    var n := if f == DAILY then 1 else 7;
    DayGap(c.year, c.month, c.date + n * k, n);
  }

  lemma RepeatDayGap(c: Civil, f: Frequency, k: nat)
    requires c.Valid()
    ensures RepeatDay(c, f, k + 1) - RepeatDay(c, f, k) == Gap(c, f, k)
  {
    hide RepeatDay, Gap;
    match f
    case MONTHLY => RepeatDayGapMonths(c, k, c.month + k);
    case YEARLY => RepeatDayGapYears(c, k);
    case _ => RepeatDayGapDays(c, f, k);
  }

  lemma CarryMonth(n: nat)
    ensures (n + 1) / 12 == n / 12 + (n % 12 + 1) / 12 && (n + 1) % 12 == (n % 12 + 1) % 12
  {
  }

  lemma RepeatAt(t: int, f: Frequency, k: nat)
    requires Fields(t).year >= 100
    ensures Repeat(t, f, k) == t + (RepeatDay(Fields(t), f, k) - t / MS_PER_DAY) * MS_PER_DAY
  {
    hide Shifted, MakeDay, DayNumber, CivilOf;
    WholeDays(t, Units(f, k));
  }

  /** From year 100 on, repeat k + 1 starts exactly that many days after repeat k. */
  lemma RepeatGap(t: int, f: Frequency, k: nat)
    requires Fields(t).year >= 100
    ensures Repeat(t, f, k + 1) - Repeat(t, f, k) == Gap(Fields(t), f, k) * MS_PER_DAY
  {
    hide Shifted, Repeat, RepeatDay, CivilOf, Gap;
    RepeatAt(t, f, k);
    RepeatAt(t, f, k + 1);
    RepeatDayGap(Fields(t), f, k);
    Differ(Repeat(t, f, k), Repeat(t, f, k + 1), t, t / MS_PER_DAY,
           RepeatDay(Fields(t), f, k), RepeatDay(Fields(t), f, k + 1), Gap(Fields(t), f, k));
  }

  lemma Differ(x: int, y: int, t: int, from: int, a: int, b: int, days: int)
    requires x == t + (a - from) * MS_PER_DAY && y == t + (b - from) * MS_PER_DAY && b - a == days
    ensures y - x == days * MS_PER_DAY
  {
  }

  lemma RepeatDayZero(c: Civil, f: Frequency)
    requires c.Valid()
    ensures RepeatDay(c, f, 0) == DayNumber(c.year, c.month, c.date)
  {
    InYear(c.year, c.month, c.date);
  }

  lemma FirstStep(t: int, f: Frequency)
    requires Fields(t).year >= 100
    ensures Repeat(t, f, 1) - t == Gap(Fields(t), f, 0) * MS_PER_DAY
  {
    hide Shifted, Repeat, RepeatDay, CivilOf, Gap, DayNumber;
    RepeatAt(t, f, 1);
    RepeatDayGap(Fields(t), f, 0);
    RepeatDayZero(Fields(t), f);
    StepFrom(Repeat(t, f, 1), t, t / MS_PER_DAY, RepeatDay(Fields(t), f, 0), RepeatDay(Fields(t), f, 1), Gap(Fields(t), f, 0));
  }

  lemma StepFrom(x: int, t: int, from: int, a: int, b: int, days: int)
    requires x == t + (b - from) * MS_PER_DAY && a == from && b - a == days
    ensures x - t == days * MS_PER_DAY
  {
  }
}
