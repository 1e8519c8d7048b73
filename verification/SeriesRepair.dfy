/** The repair of scripts/repair-overlapping-series.ts: every series the filter flags,
    and each of its events, is cut to a fixed length from its own start. */
module SeriesRepair {
  import opened Basics
  import opened EcmaDate
  import opened Recurrence
  import opened SeriesOverlap
  import WrittenSeries

  datatype Event = Event(series: Option<string>, start: int, end: int)

  /** The outcome of a call: refused, nothing flagged, listed only, or applied. */
  datatype Outcome = BadMinutes | NothingFound | DryRun | Applied

  /** `new Date` of a number drops its fraction. */
  function WholeMs(x: real): int {
    if x >= 0.0 then x.Floor else -((-x).Floor)
  }

  function ClampedEnd(start: int, minutes: real): int {
    WholeMs(start as real + minutes * 60_000.0)
  }

  function Flagged(series: map<string, Series>): set<string> {
    set id | id in series && Broken(series[id])
  }

  function ClampedSeries(s: Series, minutes: real): Series {
    s.(anchorEnd := ClampedEnd(s.anchorStart, minutes))
  }

  function ClampedEvent(e: Event, minutes: real): Event {
    e.(end := ClampedEnd(e.start, minutes))
  }

  /** Exactly the minutes asked for, if they are whole; within a millisecond of them else. */
  predicate Lasts(start: int, end: int, minutes: real) {
    (minutes.Floor as real == minutes ==> end == start + minutes.Floor * 60_000) &&
    -1.0 < end as real - start as real - minutes * 60_000.0 < 1.0
  }

  /** Of the two whole milliseconds about a fraction, the end is the one nearer to 1970. */
  lemma ClampedEndIs(start: int, minutes: real)
    ensures Lasts(start, ClampedEnd(start, minutes), minutes)
    ensures var exact, end := start as real + minutes * 60_000.0, ClampedEnd(start, minutes) as real;
            if exact >= 0.0 then end <= exact else exact <= end
  {
    if minutes.Floor as real == minutes {
      assert start as real + minutes * 60_000.0 == (start + minutes.Floor * 60_000) as real;
    }
  }

  /** The series of `ids` cut to length. */
  function RepairedSeries(series: map<string, Series>, ids: set<string>, minutes: real): map<string, Series> {
    map id | id in series :: if id in ids then ClampedSeries(series[id], minutes) else series[id]
  }

  predicate InSeries(e: Event, ids: set<string>) {
    e.series.Some? && e.series.value in ids
  }

  /** The events of the series of `ids` cut to length. */
  function RepairedEvents(events: map<string, Event>, ids: set<string>, minutes: real): map<string, Event> {
    map id | id in events :: if InSeries(events[id], ids) then ClampedEvent(events[id], minutes) else events[id]
  }

  /** An event of a series that is flagged. */
  predicate OfFlagged(e: Event, series: map<string, Series>) {
    e.series.Some? && e.series.value in series && Broken(series[e.series.value])
  }

  lemma ClampedRows(series: map<string, Series>, events: map<string, Event>, ids: set<string>, minutes: real)
    ensures forall id :: id in series && id in ids ==>
              var s := RepairedSeries(series, ids, minutes)[id];
              Lasts(s.anchorStart, s.anchorEnd, minutes)
    ensures forall e :: e in events && InSeries(events[e], ids) ==>
              var event := RepairedEvents(events, ids, minutes)[e];
              Lasts(event.start, event.end, minutes)
  {
    forall id | id in series && id in ids
      ensures Lasts(series[id].anchorStart, ClampedEnd(series[id].anchorStart, minutes), minutes)
    {
      ClampedEndIs(series[id].anchorStart, minutes);
    }
    forall e | e in events && InSeries(events[e], ids)
      ensures Lasts(events[e].start, ClampedEnd(events[e].start, minutes), minutes)
    {
      ClampedEndIs(events[e].start, minutes);
    }
  }

  class Calendar {
    var series: map<string, Series>
    var events: map<string, Event>

    constructor (series: map<string, Series>, events: map<string, Event>)
      ensures this.series == series && this.events == events
    {
      this.series, this.events := series, events;
    }

    /** Row by row, in whatever order the query lists them. */
    method ClampEvents(id: string, minutes: real)
      modifies this`events
      ensures events == RepairedEvents(old(events), {id}, minutes)
      ensures events.Keys == old(events).Keys
      ensures forall e :: e in events ==>
                events[e].series == old(events)[e].series && events[e].start == old(events)[e].start &&
                (old(events)[e].series != Some(id) ==> events[e].end == old(events)[e].end)
      ensures forall e :: e in events && old(events)[e].series == Some(id) ==>
                Lasts(events[e].start, events[e].end, minutes)
    {
      var before := events;
      var todo := set e | e in events && events[e].series == Some(id);
      ghost var all := todo;
      while todo != {}
        invariant todo <= all && events.Keys == before.Keys
        invariant forall e :: e in before ==>
                    events[e] == if e in all - todo then ClampedEvent(before[e], minutes) else before[e]
        decreases todo
      {
        var e :| e in todo;
        events := events[e := events[e].(end := ClampedEnd(events[e].start, minutes))];
        todo := todo - {e};
      }
      ClampedRows(map[], before, {id}, minutes);
    }

    /** One flagged series: its events first, then its anchor. */
    method ClampSeries(id: string, minutes: real)
      requires id in series
      modifies this
      ensures series == old(series)[id := ClampedSeries(old(series)[id], minutes)]
      ensures events == RepairedEvents(old(events), {id}, minutes)
    {
      ClampEvents(id, minutes);
      series := series[id := series[id].(anchorEnd := ClampedEnd(series[id].anchorStart, minutes))];
    }

    method Repair(apply: bool, minutes: real) returns (outcome: Outcome)
      modifies this
      ensures outcome == if minutes <= 0.0 then BadMinutes
                         else if Flagged(old(series)) == {} then NothingFound
                         else if !apply then DryRun
                         else Applied
      ensures outcome != Applied ==> series == old(series) && events == old(events)
      ensures outcome == Applied ==>
                && series == RepairedSeries(old(series), Flagged(old(series)), minutes)
                && events == RepairedEvents(old(events), Flagged(old(series)), minutes)
      ensures series.Keys == old(series).Keys && events.Keys == old(events).Keys
      ensures forall id :: id in series ==>
                series[id].frequency == old(series)[id].frequency && series[id].anchorStart == old(series)[id].anchorStart &&
                (!Broken(old(series)[id]) ==> series[id] == old(series)[id])
      ensures forall id :: id in series && Broken(old(series)[id]) && outcome == Applied ==>
                Lasts(series[id].anchorStart, series[id].anchorEnd, minutes)
      ensures forall e :: e in events ==>
                events[e].series == old(events)[e].series && events[e].start == old(events)[e].start &&
                (!OfFlagged(old(events)[e], old(series)) ==> events[e].end == old(events)[e].end)
      ensures forall e :: e in events && OfFlagged(old(events)[e], old(series)) && outcome == Applied ==>
                Lasts(events[e].start, events[e].end, minutes)
    {
      if minutes <= 0.0 {
        return BadMinutes;
      }
      var broken := Flagged(series);
      if broken == {} {
        return NothingFound;
      }
      if !apply {
        return DryRun;
      }
      var todo := broken;
      ghost var done: set<string> := {};
      while todo != {}
        invariant done + todo == broken && done !! todo
        invariant series == RepairedSeries(old(series), done, minutes)
        invariant events == RepairedEvents(old(events), done, minutes)
        decreases todo
      {
        var id :| id in todo;
        RepairMore(old(series), old(events), done, id, minutes);
        ClampSeries(id, minutes);
        todo, done := todo - {id}, done + {id};
      }
      ClampedRows(old(series), old(events), broken, minutes);
      return Applied;
    }
  }

  lemma RepairMore(series: map<string, Series>, events: map<string, Event>, ids: set<string>, id: string, minutes: real)
    requires id in series && id !in ids
    ensures RepairedEvents(RepairedEvents(events, ids, minutes), {id}, minutes) == RepairedEvents(events, ids + {id}, minutes)
    ensures RepairedSeries(series, ids, minutes)[id := ClampedSeries(RepairedSeries(series, ids, minutes)[id], minutes)] ==
              RepairedSeries(series, ids + {id}, minutes)
  {
  }

  // ------------------------------------------------- what the repair leaves

  /** What is flagged after a repair was flagged before, and had the length asked for
      reach its own interval. */
  lemma FlaggedAfter(series: map<string, Series>, minutes: real, id: string)
    requires id in series
    ensures var s := series[id];
            var interval := IntervalMs(s.anchorStart, s.frequency);
            id in Flagged(RepairedSeries(series, Flagged(series), minutes)) <==>
              id in Flagged(series) && ClampedEnd(s.anchorStart, minutes) - s.anchorStart >= interval.value
  {
  }

  /** Each flagged series is longer than the length asked for, in its own interval. */
  predicate FitsEveryFlagged(series: map<string, Series>, minutes: real) {
    forall id :: id in Flagged(series) ==>
      ClampedEnd(series[id].anchorStart, minutes) - series[id].anchorStart <
        IntervalMs(series[id].anchorStart, series[id].frequency).value
  }

  /** A length below every flagged interval leaves nothing flagged; series that were not
      flagged keep their rows, and the events of no flagged series keep theirs. */
  lemma NothingFlaggedAfter(series: map<string, Series>, events: map<string, Event>, minutes: real)
    requires FitsEveryFlagged(series, minutes)
    ensures Flagged(RepairedSeries(series, Flagged(series), minutes)) == {}
    ensures forall id :: id in series && id !in Flagged(series) ==>
              RepairedSeries(series, Flagged(series), minutes)[id] == series[id]
    ensures forall e :: e in events && !InSeries(events[e], Flagged(series)) ==>
              RepairedEvents(events, Flagged(series), minutes)[e] == events[e]
  {
    forall id | id in series
      ensures id !in Flagged(RepairedSeries(series, Flagged(series), minutes))
    {
      FlaggedAfter(series, minutes, id);
    }
  }

  lemma ClampedLength(start: int, minutes: real)
    requires minutes > 0.0
    ensures 0 <= ClampedEnd(start, minutes) - start
    ensures minutes * 60_000.0 <= 86_399_999.0 ==> ClampedEnd(start, minutes) - start < MS_PER_DAY
  {
  }

  /** A millisecond less than a day does, or any less, the default half hour included, when the flagged
      series start in year 100 or later: no step is shorter than a day. */
  lemma UnderADayIsEnough(series: map<string, Series>, minutes: real)
    requires 0.0 < minutes && minutes * 60_000.0 <= 86_399_999.0
    requires forall id :: id in Flagged(series) ==> Fields(series[id].anchorStart).year >= 100
    ensures Flagged(RepairedSeries(series, Flagged(series), minutes)) == {}
  {
    forall id | id in series
      ensures id !in Flagged(RepairedSeries(series, Flagged(series), minutes))
    {
      FlaggedAfter(series, minutes, id);
      ClampedLength(series[id].anchorStart, minutes);
      if id in Flagged(series) {
        AtLeastADay(series[id]);
      }
    }
  }

  lemma AtLeastADay(s: Series)
    requires Fields(s.anchorStart).year >= 100 && Broken(s)
    ensures IntervalMs(s.anchorStart, s.frequency).value >= MS_PER_DAY
  {
    FirstInterval(s);
    GapAtLeast(Fields(s.anchorStart), s.frequency, 0);
  }

  /** The flagged series really are repaired: cut to less than a day, none of them overlaps
      at any repeat counted by the script's step, nor in any number of rows written. */
  lemma RepairedNeverOverlap(series: map<string, Series>, minutes: real, id: string, n: nat)
    requires 0.0 < minutes && minutes * 60_000.0 <= 86_399_999.0 && id in Flagged(series) && Fields(series[id].anchorStart).year >= 100
    ensures var s := RepairedSeries(series, Flagged(series), minutes)[id];
            && NeverOverlaps(s.anchorStart, s.Duration(), s.frequency)
            && WrittenSeries.NoOverlap(WrittenSeries.Rows(s, 0, n))
  {
    var s := ClampedSeries(series[id], minutes);
    ClampedLength(s.anchorStart, minutes);
    NeverOverlapsIff(s.anchorStart, s.Duration(), s.frequency);
    WrittenSeries.NoOverlapIff(s, n);
  }
}
