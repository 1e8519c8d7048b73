/** The rows of a series that are written (src/modules/event/services), and when two of them
    overlap: for any series, and for those the script's filter passes or the service
    admits. */
module WrittenSeries {
  import opened Basics
  import opened EcmaDate
  import opened Recurrence
  import opened SeriesOverlap
  import opened Expander

  const MAX_OCCURRENCES_PER_SERIES: nat := 365

  // ------------------------------------------------- the shortest steps

  /** The fewest days between two repeats as written. Monthly repeats on the 29th or
      30th are never as close as a common February is long. */
  function FewestDays(f: Frequency, date: int): nat {
    if f == MONTHLY && 29 <= date <= 30 then 29 else Shortest(f)
  }

  lemma MonthDayFrom(y: int, i: nat, date: int)
    ensures MonthDay(y, i, date) == MakeDay(y, i, 0) + Least(date, LengthOfMonth(y, i))
  {
  }

  lemma MonthDayGap(y: int, i: nat, j: nat, date: int)
    requires j == i + 1
    ensures MonthDay(y, j, date) - MonthDay(y, i, date) ==
              LengthOfMonth(y, i) + Least(date, LengthOfMonth(y, j)) - Least(date, LengthOfMonth(y, i))
  {
    MonthDayFrom(y, i, date);
    MonthDayFrom(y, j, date);
    MonthGap(y, i, 0);
  }

  /** February lies between two months of 31 days, and no other month is short. */
  lemma Neighbours(y: int, i: nat)
    ensures var a, b := LengthOfMonth(y, i), LengthOfMonth(y, i + 1);
            28 <= a <= 31 && 28 <= b <= 31 && (a < 30 ==> b == 31) && (b < 30 ==> a == 31)
  {
    CarryMonth(i);
    MonthLengths(y + i / 12, i % 12);
    MonthLengths(y + (i + 1) / 12, (i + 1) % 12);
  }

  lemma MonthsFewest(y: int, i: nat, date: int)
    requires 1 <= date <= 31
    ensures MonthDay(y, i + 1, date) - MonthDay(y, i, date) >= FewestDays(MONTHLY, date)
  {
    MonthDayGap(y, i, i + 1, date);
    Neighbours(y, i);
  }

  lemma YearDayGap(y: int, z: int, m: nat, date: int)
    requires m < 12 && z == y + 1
    ensures ClampedDay(z, m, date) - ClampedDay(y, m, date) ==
              (if Leap(if m < 2 then y else z) then 366 else 365)
                + Least(date, DaysInMonth(z, m)) - Least(date, DaysInMonth(y, m))
  {
    LeapDays(y, m);
  }

  lemma YearsFewest(y: int, z: int, m: nat, date: int)
    requires m < 12 && z == y + 1 && 1 <= date
    ensures ClampedDay(z, m, date) - ClampedDay(y, m, date) >= 365
  {
    hide ClampedDay;
    YearDayGap(y, z, m, date);
    MonthLengths(y, m);
    MonthLengths(z, m);
  }

  lemma RepeatedFewest(c: Civil, f: Frequency, n: nat)
    requires c.Valid()
    ensures RepeatedDay(c, f, n + 1) - RepeatedDay(c, f, n) >= FewestDays(f, c.date)
  {
    hide ClampedDay, MonthDay, DayNumber;
    MonthLengths(c.year, c.month);
    match f
    case DAILY =>
    case WEEKLY =>
    case MONTHLY => MonthsFewest(c.year, c.month + n, c.date);
    case YEARLY => YearsFewest(c.year + n, c.year + n + 1, c.month, c.date);
  }

  lemma CommonYear(year: int) returns (y: int)
    ensures year <= y <= year + 1 && !Leap(y)
  {
    y := year;
    if Leap(year) {
      NotLeapNext(year);
      y := year + 1;
    }
  }

  lemma WinterLengths(year: int, y: int, i: nat)
    requires !Leap(y) && i == 12 * (y - year)
    ensures LengthOfMonth(year, i) == 31 && LengthOfMonth(year, i + 1) == 28 && LengthOfMonth(year, i + 2) == 31
  {
    assert i / 12 == y - year && i % 12 == 0;
    assert (i + 1) / 12 == y - year && (i + 1) % 12 == 1;
    assert (i + 2) / 12 == y - year && (i + 2) % 12 == 2;
    MonthLengths(y, 0);
    MonthLengths(y, 1);
    MonthLengths(y, 2);
  }

  /** Around the first February of a common year a monthly series takes its shortest step:
      from January for the 30th and 31st, from February for any other date. */
  lemma ShortestMonth(c: Civil) returns (i: nat)
    requires c.Valid()
    ensures c.month <= i <= c.month + 23
    ensures MonthDay(c.year, i + 1, c.date) - MonthDay(c.year, i, c.date) == FewestDays(MONTHLY, c.date)
  {
    hide MonthDay, LengthOfMonth, Leap;
    MonthLengths(c.year, c.month);
    var last := if c.date >= 30 then 0 else 1;
    var y := CommonYear(if c.month <= last then c.year else c.year + 1);
    var january := 12 * (y - c.year);
    WinterLengths(c.year, y, january);
    i := january + last;
    MonthDayGap(c.year, i, i + 1, c.date);
  }

  lemma ShortestYear(c: Civil) returns (n: nat)
    requires c.Valid()
    ensures n <= 1
    ensures ClampedDay(c.year + n + 1, c.month, c.date) - ClampedDay(c.year + n, c.month, c.date) == 365
  {
    hide ClampedDay;
    var first := if c.month < 2 then c.year else c.year + 1;
    n := if Leap(first) && !(c.month == 1 && c.date == 29) then 1 else 0;
    YearDayGap(c.year + n, c.year + n + 1, c.month, c.date);
    MonthLengths(c.year, c.month);
    MonthLengths(c.year + n, c.month);
    MonthLengths(c.year + n + 1, c.month);
  }

  /** How many repeats are sure to take the shortest step of their frequency. */
  function EnoughRows(f: Frequency): nat {
    match f
    case DAILY => 2
    case WEEKLY => 2
    case MONTHLY => 25
    case YEARLY => 3
  }

  lemma ShortestStep(c: Civil, f: Frequency) returns (n: nat)
    requires c.Valid()
    ensures n + 2 <= EnoughRows(f)
    ensures RepeatedDay(c, f, n + 1) - RepeatedDay(c, f, n) == FewestDays(f, c.date)
  {
    hide ClampedDay, MonthDay, DayNumber;
    match f
    case DAILY => n := 0;
    case WEEKLY => n := 0;
    case YEARLY => n := ShortestYear(c);
    case MONTHLY =>
      var i := ShortestMonth(c);
      n := i - c.month;
  }

  lemma WrittenGap(start: int, f: Frequency, n: nat, days: int)
    requires Fields(start).year >= 100
    requires days == RepeatedDay(Fields(start), f, n + 1) - RepeatedDay(Fields(start), f, n)
    ensures AddUnits(start, f, n + 1) - AddUnits(start, f, n) == days * MS_PER_DAY
  {
    AddUnitsDay(start, f, n);
    AddUnitsDay(start, f, n + 1);
    Apart(AddUnits(start, f, n), AddUnits(start, f, n + 1), RepeatedDay(Fields(start), f, n),
          RepeatedDay(Fields(start), f, n + 1), start % MS_PER_DAY, days);
  }

  lemma Apart(x: int, y: int, a: int, b: int, time: int, days: int)
    requires x == a * MS_PER_DAY + time && y == b * MS_PER_DAY + time && b - a == days
    ensures y - x == days * MS_PER_DAY
  {
  }

  lemma StepAtLeast(start: int, f: Frequency, n: nat)
    requires Fields(start).year >= 100
    ensures AddUnits(start, f, n + 1) - AddUnits(start, f, n) >= FewestDays(f, Fields(start).date) * MS_PER_DAY
  {
    var c := Fields(start);
    WrittenGap(start, f, n, RepeatedDay(c, f, n + 1) - RepeatedDay(c, f, n));
    RepeatedFewest(c, f, n);
  }

  lemma StepUp(start: int, f: Frequency, n: nat)
    requires Fields(start).year >= 100
    ensures AddUnits(start, f, n) <= AddUnits(start, f, n + 1)
  {
    hide AddUnits;
    StepAtLeast(start, f, n);
  }

  lemma {:induction false} Increasing(start: int, f: Frequency, i: nat, j: nat)
    requires Fields(start).year >= 100 && i <= j
    ensures AddUnits(start, f, i) <= AddUnits(start, f, j)
    decreases j
  {
    hide AddUnits, Fields;
    if i < j {
      Increasing(start, f, i, j - 1);
      StepUp(start, f, j - 1);
    }
  }

  // ------------------------------------------------- the rows

  datatype Occurrence = Occurrence(start: int, end: int, index: nat)

  /** The end of a repeat rule, and how far a request goes. */
  datatype Limits = Limits(until: Option<int>, count: Option<nat>, horizonEnd: int)

  function HardLimit(count: Option<nat>): nat {
    if count.Some? && count.value != 0 && count.value < MAX_OCCURRENCES_PER_SERIES then count.value
    else MAX_OCCURRENCES_PER_SERIES
  }

  /** The rule has a repeat of this index. */
  predicate Allowed(s: Series, l: Limits, index: nat) {
    index < HardLimit(l.count) &&
    var start := AddUnits(s.anchorStart, s.frequency, index);
    (l.until.Some? ==> start <= l.until.value) && start <= l.horizonEnd
  }

  function Row(s: Series, index: nat): Occurrence {
    var start := AddUnits(s.anchorStart, s.frequency, index);
    Occurrence(start, start + s.Duration(), index)
  }

  function Rows(s: Series, from: nat, n: nat): seq<Occurrence> {
    seq(n, i requires 0 <= i < n => Row(s, from + i))
  }

  lemma OneMoreRow(s: Series, from: nat, n: nat)
    ensures Rows(s, from, n + 1) == Rows(s, from, n) + [Row(s, from + n)]
    ensures |Rows(s, from, n)| == n
  {
    hide AddUnits;
  }

  lemma AllowedBefore(s: Series, l: Limits, i: nat, j: nat)
    requires Fields(s.anchorStart).year >= 100 && i <= j && Allowed(s, l, j)
    ensures Allowed(s, l, i)
  {
    hide AddUnits, Fields;
    Increasing(s.anchorStart, s.frequency, i, j);
  }

  /** `expand`: the repeats of the rule from `startIndex` on, up to `maxRows` of them. The
      loop stops at the first that is past an end; none after it is before one. */
  method Expand(s: Series, l: Limits, maxRows: nat, startIndex: nat) returns (occurrences: seq<Occurrence>)
    ensures occurrences == Rows(s, startIndex, |occurrences|) && |occurrences| <= maxRows
    ensures Fields(s.anchorStart).year >= 100 ==>
              forall i :: startIndex <= i < startIndex + maxRows ==>
                (Allowed(s, l, i) <==> i < startIndex + |occurrences|)
    ensures forall i :: 0 <= i < |occurrences| ==>
              var o := occurrences[i];
              && o.index == startIndex + i < 365 && (l.count.Some? && l.count.value > 0 ==> o.index < l.count.value)
              && o.start == AddUnits(s.anchorStart, s.frequency, startIndex + i)
              && o.end - o.start == s.anchorEnd - s.anchorStart
              && (l.until.Some? ==> o.start <= l.until.value) && o.start <= l.horizonEnd
    ensures |occurrences| < maxRows ==>
              var next := startIndex + |occurrences|;
              var start := AddUnits(s.anchorStart, s.frequency, next);
              || next >= 365 || (l.count.Some? && 0 < l.count.value <= next)
              || (l.until.Some? && start > l.until.value) || start > l.horizonEnd
  {
    hide AddUnits, Rows, Fields;
    occurrences := [];
    OneMoreRow(s, startIndex, 0);
    assert Rows(s, startIndex, 0) == [];
    var hardLimit := HardLimit(l.count);
    var index := startIndex;
    while index < hardLimit
      invariant index == startIndex + |occurrences| && |occurrences| <= maxRows
      invariant occurrences == Rows(s, startIndex, |occurrences|)
      invariant forall i :: startIndex <= i < index ==> Allowed(s, l, i)
      invariant forall i :: 0 <= i < |occurrences| ==> occurrences[i] == Row(s, startIndex + i) && Allowed(s, l, startIndex + i)
    {
      if |occurrences| >= maxRows { break; }

      var start := AddUnits(s.anchorStart, s.frequency, index);
      if l.until.Some? && start > l.until.value { break; }
      if start > l.horizonEnd { break; }

      OneMoreRow(s, startIndex, |occurrences|);
      occurrences := occurrences + [Occurrence(start, start + s.Duration(), index)];
      index := index + 1;
    }
    forall i | index <= i < startIndex + maxRows && Fields(s.anchorStart).year >= 100
      ensures !Allowed(s, l, i)
    {
      if Allowed(s, l, i) {
        AllowedBefore(s, l, index, i);
      }
    }
  }

  // ------------------------------------------------- when two rows overlap

  /** No row is still running when the next one starts. */
  predicate NoOverlap(rows: seq<Occurrence>) {
    forall i :: 0 <= i < |rows| - 1 ==> rows[i].end <= rows[i + 1].start
  }

  lemma ShortSeriesFits(s: Series, n: nat)
    requires Fields(s.anchorStart).year >= 100
    requires s.Duration() <= FewestDays(s.frequency, Fields(s.anchorStart).date) * MS_PER_DAY
    ensures NoOverlap(Rows(s, 0, n))
  {
    hide AddUnits, Fields, FewestDays;
    var rows := Rows(s, 0, n);
    forall i | 0 <= i < |rows| - 1
      ensures rows[i].end <= rows[i + 1].start
    {
      StepAtLeast(s.anchorStart, s.frequency, i);
    }
  }

  lemma LongSeriesOverlaps(s: Series, n: nat)
    requires Fields(s.anchorStart).year >= 100 && n >= EnoughRows(s.frequency)
    requires s.Duration() > FewestDays(s.frequency, Fields(s.anchorStart).date) * MS_PER_DAY
    ensures !NoOverlap(Rows(s, 0, n))
  {
    hide AddUnits, RepeatedDay, FewestDays, EnoughRows, Fields, NoOverlap;
    var rows := Rows(s, 0, n);
    var i := ShortestStep(Fields(s.anchorStart), s.frequency);
    WrittenGap(s.anchorStart, s.frequency, i, FewestDays(s.frequency, Fields(s.anchorStart).date));
    Overlapping(rows, i);
  }

  lemma Overlapping(rows: seq<Occurrence>, i: nat)
    requires i + 1 < |rows| && rows[i].end > rows[i + 1].start
    ensures !NoOverlap(rows)
  {
  }

  /** The rows of a series never overlap exactly when it lasts at most a day, a week, 28
      days (29 when it falls on the 29th or 30th), or 365 days; a series so short that it
      takes no step of that length may get away with more. */
  lemma NoOverlapIff(s: Series, n: nat)
    requires Fields(s.anchorStart).year >= 100
    ensures var fits := s.Duration() <= FewestDays(s.frequency, Fields(s.anchorStart).date) * MS_PER_DAY;
            && (fits ==> NoOverlap(Rows(s, 0, n)))
            && (n >= EnoughRows(s.frequency) ==> (NoOverlap(Rows(s, 0, n)) <==> fits))
  {
    if s.Duration() <= FewestDays(s.frequency, Fields(s.anchorStart).date) * MS_PER_DAY {
      ShortSeriesFits(s, n);
    } else if n >= EnoughRows(s.frequency) {
      LongSeriesOverlaps(s, n);
    }
  }

  lemma FitsEachStep(s: Series, n: nat, days: int)
    requires Fields(s.anchorStart).year >= 100 && s.Duration() <= days * MS_PER_DAY
    requires forall i: nat :: i + 1 < n ==> StepDays(Fields(s.anchorStart), s.frequency, i) >= days
    ensures NoOverlap(Rows(s, 0, n))
  {
    hide AddUnits, Fields, RepeatedDay;
    var rows := Rows(s, 0, n);
    forall i | 0 <= i < |rows| - 1
      ensures rows[i].end <= rows[i + 1].start
    {
      WrittenGap(s.anchorStart, s.frequency, i, StepDays(Fields(s.anchorStart), s.frequency, i));
    }
  }

  /** The days from one repeat to the next. */
  function StepDays(c: Civil, f: Frequency, i: nat): int
    requires c.Valid()
  {
    RepeatedDay(c, f, i + 1) - RepeatedDay(c, f, i)
  }

  /** From March before a leap year it takes two years to meet a February of 28 days. */
  lemma LongMonths(i: nat)
    requires i < 23
    ensures StepDays(Civil(2027, 2, 1), MONTHLY, i) >= 29
  {
    hide MonthDay, LengthOfMonth;
    MonthDayGap(2027, 2 + i, 3 + i, 1);
    NoShortFebruary(2 + i);
    MonthLengths(2027 + (3 + i) / 12, (3 + i) % 12);
    LengthIs(2027, 3 + i);
  }

  lemma LengthIs(y: int, n: nat)
    ensures LengthOfMonth(y, n) == DaysInMonth(y + n / 12, n % 12)
  {
  }

  lemma NoShortFebruary(n: nat)
    requires 2 <= n < 25
    ensures LengthOfMonth(2027, n) >= 29
  {
    assert n % 12 == 1 ==> n == 13;
    MonthLengths(2027 + n / 12, n % 12);
  }

  lemma LongYear()
    ensures StepDays(Civil(2027, 2, 1), YEARLY, 0) == 366
  {
    YearDayGap(2027, 2028, 2, 1);
  }

  lemma EveryStepIsLonger(f: Frequency, i: nat)
    requires i + 2 < EnoughRows(f)
    ensures StepDays(Civil(2027, 2, 1), f, i) > FewestDays(f, 1)
  {
    hide StepDays;
    if f == MONTHLY {
      LongMonths(i);
    } else {
      LongYear();
    }
  }

  /** A series with one row less may get away with a longer duration: one from 1 March 2027
      does, a day over. */
  lemma EnoughIsLeast(s: Series)
    requires Fields(s.anchorStart) == Civil(2027, 2, 1) && s.Duration() == (FewestDays(s.frequency, 1) + 1) * MS_PER_DAY
    ensures NoOverlap(Rows(s, 0, EnoughRows(s.frequency) - 1))
  {
    hide Fields, StepDays, Rows, NoOverlap, FewestDays;
    var days := FewestDays(s.frequency, 1) + 1;
    forall i: nat | i + 1 < EnoughRows(s.frequency) - 1
      ensures StepDays(Civil(2027, 2, 1), s.frequency, i) >= days
    {
      EveryStepIsLonger(s.frequency, i);
    }
    FitsEachStep(s, EnoughRows(s.frequency) - 1, days);
  }

  lemma March2027()
    ensures Fields(DayNumber(2027, 2, 1) * MS_PER_DAY) == Civil(2027, 2, 1)
  {
    DayFields(Civil(2027, 2, 1));
  }

  /** What the script's filter lets stand: a series that passes it overlaps in its rows
      exactly when it lasts longer than the shortest step of its frequency and less than
      its own first interval as the script measures it. So a daily or weekly one never does. */
  lemma PassingSeriesOverlapsIff(s: Series, n: nat)
    requires Fields(s.anchorStart).year >= 100 && IntervalMs(s.anchorStart, s.frequency).Some?
    requires n >= EnoughRows(s.frequency)
    ensures !Broken(s) && !NoOverlap(Rows(s, 0, n)) <==>
              FewestDays(s.frequency, Fields(s.anchorStart).date) * MS_PER_DAY < s.Duration() < FirstGap(s) * MS_PER_DAY
    ensures (s.frequency == DAILY || s.frequency == WEEKLY) && !Broken(s) ==> NoOverlap(Rows(s, 0, n))
  {
    hide NoOverlap, Rows;
    PassingIff(s);
    NoOverlapIff(s, n);
  }

  // ------------------------------------------------- the series admitted today

  /** `intervalMs` of the service, whose step is the one the rows take. */
  function WrittenIntervalMs(start: int, f: Frequency): int {
    AddUnits(start, f, 1) - start
  }

  /** `assertOccurrenceFitsInterval` */
  predicate Admitted(s: Series) {
    s.Duration() < WrittenIntervalMs(s.anchorStart, s.frequency)
  }

  /** The first interval of the rows, in days. */
  function FirstWrittenGap(c: Civil, f: Frequency): int
    requires c.Valid()
  {
    match f
    case DAILY => 1
    case WEEKLY => 7
    case MONTHLY =>
      DaysInMonth(c.year, c.month) + Least(c.date, LengthOfMonth(c.year, c.month + 1)) - c.date
    case YEARLY =>
      (if LeapDayWithin(c.year, c.month) then 366 else 365) + Least(c.date, DaysInMonth(c.year + 1, c.month)) - c.date
  }

  lemma FirstWrittenMonth(c: Civil, i: nat)
    requires c.Valid() && i == c.month
    ensures RepeatedDay(c, MONTHLY, 1) - RepeatedDay(c, MONTHLY, 0) == FirstWrittenGap(c, MONTHLY)
  {
    hide MonthDay;
    MonthDayGap(c.year, i, i + 1, c.date);
    assert i / 12 == 0 && i % 12 == i;
  }

  lemma FirstWrittenYear(c: Civil)
    requires c.Valid()
    ensures RepeatedDay(c, YEARLY, 1) - RepeatedDay(c, YEARLY, 0) == FirstWrittenGap(c, YEARLY)
  {
    hide ClampedDay, LeapDayWithin;
    YearDayGap(c.year, c.year + 1, c.month, c.date);
    LeapDays(c.year, c.month);
  }

  lemma FirstWrittenStep(c: Civil, f: Frequency)
    requires c.Valid()
    ensures RepeatedDay(c, f, 1) - RepeatedDay(c, f, 0) == FirstWrittenGap(c, f)
  {
    if f == MONTHLY {
      FirstWrittenMonth(c, c.month);
    } else if f == YEARLY {
      FirstWrittenYear(c);
    }
  }

  lemma WrittenIntervalIs(start: int, f: Frequency)
    requires Fields(start).year >= 100
    ensures WrittenIntervalMs(start, f) == FirstWrittenGap(Fields(start), f) * MS_PER_DAY
  {
    FirstWrittenStep(Fields(start), f);
    WrittenGap(start, f, 0, FirstWrittenGap(Fields(start), f));
  }

  /** The same of the rule that admits a series today, which measures the first interval
      of the rows themselves but looks no further either. */
  lemma AdmittedSeriesOverlapsIff(s: Series, n: nat)
    requires Fields(s.anchorStart).year >= 100 && n >= EnoughRows(s.frequency)
    ensures var c := Fields(s.anchorStart);
            && (Admitted(s) <==> s.Duration() < FirstWrittenGap(c, s.frequency) * MS_PER_DAY)
            && (Admitted(s) && !NoOverlap(Rows(s, 0, n)) <==>
                  FewestDays(s.frequency, c.date) * MS_PER_DAY < s.Duration() < FirstWrittenGap(c, s.frequency) * MS_PER_DAY)
  {
    hide NoOverlap, Rows, FirstWrittenGap;
    WrittenIntervalIs(s.anchorStart, s.frequency);
    NoOverlapIff(s, n);
  }

  // ------------------------------------------------- a series that passes and overlaps

  lemma MarchIsNear(s: Series, n: nat)
    requires var c := Fields(s.anchorStart); c.year >= 100 && c.month == 0 && c.date <= 28 && !Leap(c.year)
    requires s.frequency == MONTHLY && 28 * MS_PER_DAY < s.Duration() && n >= 3
    ensures Rows(s, 0, n)[1].end > Rows(s, 0, n)[2].start
  {
    hide AddUnits, MonthDay, LengthOfMonth, Fields;
    var c := Fields(s.anchorStart);
    WinterLengths(c.year, c.year, 0);
    MonthDayGap(c.year, 1, 2, c.date);
    WrittenGap(s.anchorStart, MONTHLY, 1, 28);
  }

  lemma FebruaryIsFar(s: Series)
    requires var c := Fields(s.anchorStart); c.year >= 100 && c.month == 0 && c.date <= 28 && !Leap(c.year)
    requires s.frequency == MONTHLY && s.Duration() <= 30 * MS_PER_DAY
    ensures Admitted(s)
    ensures IntervalMs(s.anchorStart, MONTHLY).Some? ==> !Broken(s)
  {
    hide AddUnits, IntervalMs, Gap, Fields;
    var c := Fields(s.anchorStart);
    JanuaryGaps(c);
    if IntervalMs(s.anchorStart, MONTHLY).Some? {
      PassingIff(s);
    }
    WinterLengths(c.year, c.year, 0);
    WrittenIntervalIs(s.anchorStart, MONTHLY);
  }

  /** A monthly series from one of the first 28 days of the January of a common year that
      lasts over 28 days and at most 30 passes the filter, is admitted, and is still
      running in February's row when March's starts. */
  lemma ThirtyDaysFromJanuary(s: Series, n: nat)
    requires var c := Fields(s.anchorStart); c.year >= 100 && c.month == 0 && c.date <= 28 && !Leap(c.year)
    requires s.frequency == MONTHLY && IntervalMs(s.anchorStart, MONTHLY).Some?
    requires 28 * MS_PER_DAY < s.Duration() <= 30 * MS_PER_DAY && n >= 3
    ensures !Broken(s) && Admitted(s)
    ensures Rows(s, 0, n)[1].end > Rows(s, 0, n)[2].start
  {
    MarchIsNear(s, n);
    FebruaryIsFar(s);
  }

  lemma InRange(start: int)
    requires Fields(start) == Civil(2026, 0, 1) && 0 <= start <= MAX_TIME - 31 * MS_PER_DAY
    ensures IntervalMs(start, MONTHLY).Some?
  {
    hide Repeat, Gap, Fields;
    FirstStep(start, MONTHLY);
    JanuaryGaps(Fields(start));
    IntervalOfRepeat(start, MONTHLY, Repeat(start, MONTHLY, 1));
  }

  /** From 1 January 2026 for thirty days, every month, three times or more: a series that
      passes the filter, is admitted today, and overlaps. */
  lemma PassingSeriesCanOverlap(n: nat)
    requires n >= 3
    ensures var s := Series(MONTHLY, 1_767_225_600_000, 1_769_817_600_000);
            !Broken(s) && Admitted(s) && !NoOverlap(Rows(s, 0, n))
  {
    hide Fields, Broken, Admitted, Row, IntervalMs;
    var s := Series(MONTHLY, 1_767_225_600_000, 1_769_817_600_000);
    FirstOfJanuary2026();
    InRange(s.anchorStart);
    ThirtyDaysFromJanuary(s, n);
    assert Rows(s, 0, n)[1].end > Rows(s, 0, n)[1 + 1].start;
  }
}
