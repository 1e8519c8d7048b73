/** When the repeats of a series overlap, and what the filter of
    scripts/repair-overlapping-series.ts says about it. */
module SeriesOverlap {
  import opened Basics
  import opened EcmaDate
  import opened Recurrence

  /** The shortest step each frequency ever takes, in days. */
  function Shortest(f: Frequency): nat {
    match f
    case DAILY => 1
    case WEEKLY => 7
    case MONTHLY => 28
    case YEARLY => 365
  }

  lemma GapAtLeast(c: Civil, f: Frequency, k: nat)
    requires c.Valid()
    ensures Shortest(f) <= Gap(c, f, k)
  {
    if f == MONTHLY {
      MonthLengths(c.year + (c.month + k) / 12, (c.month + k) % 12);
    }
  }

  /** Any month has a February of 28 days within two years of it, any year a common year
      next to it. */
  lemma ShortestGap(c: Civil, f: Frequency) returns (k: nat)
    requires c.Valid()
    ensures Gap(c, f, k) == Shortest(f)
  {
    match f
    case DAILY => k := 0;
    case WEEKLY => k := 0;
    case YEARLY =>
      var y := if c.month < 2 then c.year else c.year + 1;
      k := if Leap(y) then 1 else 0;
    case MONTHLY =>
      k := (13 - c.month) % 12;
      var n := c.month + k;
      assert n == 1 || n == 13;
      var y := c.year + n / 12;
      if Leap(y) {
        k := k + 12;
        NotLeapNext(y);
        MonthLengths(y + 1, 1);
        February(c, k, y + 1);
      } else {
        MonthLengths(y, 1);
        February(c, k, y);
      }
  }

  lemma NotLeapNext(y: int)
    requires Leap(y)
    ensures !Leap(y + 1)
  {
  }

  lemma February(c: Civil, k: nat, y: int)
    requires c.Valid() && c.month + k == 12 * (y - c.year) + 1
    ensures Gap(c, MONTHLY, k) == DaysInMonth(y, 1)
  {
    assert (c.month + k) / 12 == y - c.year && (c.month + k) % 12 == 1;
  }

  /** No repeat is still running when the next one starts. */
  ghost predicate NeverOverlaps(start: int, duration: int, f: Frequency) {
    forall k: nat :: Repeat(start, f, k) + duration <= Repeat(start, f, k + 1)
  }

  /** A series from year 100 on never overlaps exactly when it lasts no longer than the
      shortest step of its frequency, wherever in the year it starts. */
  lemma NeverOverlapsIff(start: int, duration: int, f: Frequency)
    requires Fields(start).year >= 100
    ensures NeverOverlaps(start, duration, f) <==> duration <= Shortest(f) * MS_PER_DAY
  {
    var c := Fields(start);
    if duration <= Shortest(f) * MS_PER_DAY {
      forall k: nat
        ensures Repeat(start, f, k) + duration <= Repeat(start, f, k + 1)
      {
        RepeatGap(start, f, k);
        GapAtLeast(c, f, k);
      }
    } else {
      var k := ShortestGap(c, f);
      RepeatGap(start, f, k);
      assert Repeat(start, f, k) + duration > Repeat(start, f, k + 1);
    }
  }

  // ------------------------------------------------- the filter

  datatype Series = Series(frequency: Frequency, anchorStart: int, anchorEnd: int)
  {
    function Duration(): int { anchorEnd - anchorStart }
  }

  /** The filter: as long as its first interval, or longer. An interval that is not a
      number flags nothing. */
  predicate Broken(s: Series) {
    var interval := IntervalMs(s.anchorStart, s.frequency);
    interval.Some? && s.Duration() >= interval.value
  }

  /** The first interval, in days. */
  function FirstGap(s: Series): int
  {
    Gap(Fields(s.anchorStart), s.frequency, 0)
  }

  lemma FirstInterval(s: Series)
    requires Fields(s.anchorStart).year >= 100 && IntervalMs(s.anchorStart, s.frequency).Some?
    ensures IntervalMs(s.anchorStart, s.frequency) == Some(FirstGap(s) * MS_PER_DAY)
  {
    hide Repeat, Gap;
    FirstStep(s.anchorStart, s.frequency);
    IntervalOfRepeat(s.anchorStart, s.frequency, Repeat(s.anchorStart, s.frequency, 1));
  }

  lemma IntervalOfRepeat(t: int, f: Frequency, next: int)
    requires next == Repeat(t, f, 1)
    ensures IntervalMs(t, f) == if -8_640_000_000_000_000 <= next <= 8_640_000_000_000_000 then Some(next - t) else None
  {
    hide Utc, MakeDay, Fields;
  }

  /** A daily or weekly series passes the filter exactly when it is shorter than its
      step, so one that passes never overlaps. */
  lemma FilterIsExactForDays(s: Series)
    requires Fields(s.anchorStart).year >= 100 && IntervalMs(s.anchorStart, s.frequency).Some?
    requires s.frequency == DAILY || s.frequency == WEEKLY
    ensures !Broken(s) <==> s.Duration() < Shortest(s.frequency) * MS_PER_DAY
    ensures !Broken(s) ==> NeverOverlaps(s.anchorStart, s.Duration(), s.frequency)
  {
    FirstInterval(s);
    NeverOverlapsIff(s.anchorStart, s.Duration(), s.frequency);
  }

  /** All the filter looks at is the first interval. */
  lemma PassingIff(s: Series)
    requires Fields(s.anchorStart).year >= 100 && IntervalMs(s.anchorStart, s.frequency).Some?
    ensures !Broken(s) <==> s.Duration() < FirstGap(s) * MS_PER_DAY
  {
    FirstInterval(s);
  }

  lemma JanuaryGaps(c: Civil)
    requires c.Valid() && c.month == 0 && !Leap(c.year)
    ensures Gap(c, MONTHLY, 0) == 31 && Gap(c, MONTHLY, 1) == 28
  {
    MonthLengths(c.year, 0);
    MonthLengths(c.year, 1);
    February(c, 1, c.year);
    assert 0 / 12 == 0 && 0 % 12 == 0;
  }

  lemma FirstOfJanuary2026()
    ensures Fields(1_767_225_600_000) == Civil(2026, 0, 1)
  {
    DayFromYearFormula(2026);
    assert 1_767_225_600_000 / MS_PER_DAY == 20_454;
    assert DayNumber(2026, 0, 1) == 20_454;
    CivilRoundTrip(Civil(2026, 0, 1));
  }
}
