/** src/modules/application/cancellation-counter.ts and application.constants.ts: a worker
    who keeps cancelling is suspended. The rule looks back from each cancellation; what
    it amounts to is a statement about every stretch of time. Times are in milliseconds. */
module CancellationRule {
  import opened Basics

  const DAY_MS: int := 24 * 60 * 60 * 1000

  datatype Status = PENDING | VIEWED | WAITING_PAYMENT | ACCEPTED | REJECTED | STARTED | END | CANCELLED

  datatype Canceller = WORKER | EMPLOYER | SYSTEM

  const COMMITTED_CANCEL_STATUSES: set<Status> := {ACCEPTED, WAITING_PAYMENT, END}

  const SUSPENSION_COUNTED_CANCEL_STATUSES: set<Status> := {PENDING, VIEWED} + COMMITTED_CANCEL_STATUSES

  predicate CountsTowardSuspension(fromStatus: Status) {
    fromStatus in SUSPENSION_COUNTED_CANCEL_STATUSES
  }

  /** A cancelled application, as stored. */
  datatype Cancellation = Cancellation(workerId: string, cancelledBy: Option<Canceller>, fromStatus: Option<Status>, at: int)

  /** The row is one of the worker's own, from a status that counts. */
  predicate Counted(c: Cancellation, workerId: string) {
    c.workerId == workerId && c.cancelledBy == Some(WORKER) && c.fromStatus.Some? && CountsTowardSuspension(c.fromStatus.value)
  }

  /** Counted rows with `from <= at <= to`. */
  function CountBetween(rows: seq<Cancellation>, workerId: string, from: int, to: int): nat {
    if rows == [] then 0
    else
      var c := rows[|rows| - 1];
      CountBetween(rows[..|rows| - 1], workerId, from, to) + if Counted(c, workerId) && from <= c.at <= to then 1 else 0
  }

  /** `countCountedCancellations`: the query has a lower bound only. */
  function CountCountedCancellations(rows: seq<Cancellation>, workerId: string, windowDays: int, now: int): nat {
    if rows == [] then 0
    else
      var c := rows[|rows| - 1];
      CountCountedCancellations(rows[..|rows| - 1], workerId, windowDays, now) +
      if Counted(c, workerId) && c.at >= now - windowDays * DAY_MS then 1 else 0
  }

  /** A threshold as configured: a number, infinity, or nothing that compares as positive. */
  datatype Threshold = Finite(value: real) | Infinity | NotANumber
  {
    predicate Positive() { Infinity? || (Finite? && value > 0.0) }

    predicate ReachedBy(count: nat) { Finite? && count as real >= value }
  }

  datatype Outlook = Outlook(afterThis: nat, wouldSuspend: bool, remaining: Option<real>)

  /** `cancellationSuspensionOutlook` */
  function SuspensionOutlook(priorInWindow: nat, counts: bool, threshold: Threshold): Outlook {
    var t := if threshold.Finite? then threshold.value else 0.0;
    var afterThis := priorInWindow + if counts then 1 else 0;
    if t <= 0.0 then Outlook(afterThis, false, None)
    else
      Outlook(afterThis, counts && afterThis as real >= t,
              Some(if t - afterThis as real > 0.0 then t - afterThis as real else 0.0))
  }

  /** The five statuses a worker's cancellation counts from. */
  lemma CountsIff(fromStatus: Status)
    ensures CountsTowardSuspension(fromStatus) <==>
              fromStatus in {PENDING, VIEWED, WAITING_PAYMENT, ACCEPTED, END}
  {
  }

  /** What remains is how many more counted cancellations it takes: the one at which they
      first suspend, none if this one does. */
  lemma RemainingIs(prior: nat, counts: bool, threshold: real, more: nat)
    requires threshold > 0.0
    ensures var o := SuspensionOutlook(prior, counts, Finite(threshold));
            && o.afterThis == prior + (if counts then 1 else 0)
            && (o.wouldSuspend <==> counts && o.afterThis as real >= threshold)
            && o.remaining.Some? && (o.remaining.value == 0.0 <==> o.afterThis as real >= threshold)
            && (o.remaining.value > 0.0 ==> o.afterThis as real + o.remaining.value == threshold)
            && o.remaining.value >= 0.0
            && (SuspensionOutlook(o.afterThis + more, true, Finite(threshold)).wouldSuspend <==>
                  (more + 1) as real >= o.remaining.value)
  {
  }

  // ------------------------------------------------- the rule over a run

  /** Rows in the order they were written, so in the order of their times. */
  predicate InOrder(rows: seq<Cancellation>) {
    forall i, j :: 0 <= i < j < |rows| ==> rows[i].at <= rows[j].at
  }

  /** What the preview shows the worker just before cancellation `i`. Without a positive
      threshold and window it looks no cancellations up. */
  function PreviewAt(rows: seq<Cancellation>, workerId: string, i: nat, windowDays: int, threshold: Threshold): Outlook
    requires i < |rows|
  {
    var prior :=
      if threshold.Positive() && windowDays > 0 then
        CountCountedCancellations(rows[..i], workerId, windowDays, rows[i].at)
      else 0;
    SuspensionOutlook(prior, Counted(rows[i], workerId), threshold)
  }

  /** The cancel itself: it counts after the row is written, this one included. */
  predicate SuspendsAt(rows: seq<Cancellation>, workerId: string, i: nat, windowDays: int, threshold: Threshold)
    requires i < |rows|
  {
    Counted(rows[i], workerId) && threshold.Positive() && windowDays > 0 &&
    threshold.ReachedBy(CountCountedCancellations(rows[..i + 1], workerId, windowDays, rows[i].at))
  }

  /** The preview and the cancel, made at the same instant, say the same, for every
      threshold, but in one case: without a window the cancel never suspends, while the
      preview does at a threshold the one cancellation reaches by itself. */
  lemma PreviewAgreesIff(rows: seq<Cancellation>, workerId: string, i: nat, windowDays: int, threshold: Threshold)
    requires i < |rows|
    ensures (PreviewAt(rows, workerId, i, windowDays, threshold).wouldSuspend <==>
               SuspendsAt(rows, workerId, i, windowDays, threshold)) <==>
            !(windowDays <= 0 && Counted(rows[i], workerId) && threshold.Finite? && 0.0 < threshold.value <= 1.0)
    ensures !threshold.Positive() || threshold.Infinity? ==>
              PreviewAt(rows, workerId, i, windowDays, threshold).remaining == None &&
              !SuspendsAt(rows, workerId, i, windowDays, threshold)
  {
    assert rows[..i + 1][..i] == rows[..i];
  }

  // ------------------------------------------------- every interval

  lemma {:induction false} CountIsBetween(rows: seq<Cancellation>, workerId: string, windowDays: int, now: int)
    requires forall i :: 0 <= i < |rows| ==> rows[i].at <= now
    ensures CountCountedCancellations(rows, workerId, windowDays, now) ==
              CountBetween(rows, workerId, now - windowDays * DAY_MS, now)
  {
    if rows != [] {
      CountIsBetween(rows[..|rows| - 1], workerId, windowDays, now);
    }
  }

  /** Widening the interval, and adding rows, can only add to the count. */
  lemma {:induction false} CountGrows(rows: seq<Cancellation>, n: nat, workerId: string, from: int, to: int, from': int, to': int)
    requires n <= |rows|
    requires forall i :: 0 <= i < n && Counted(rows[i], workerId) && from <= rows[i].at <= to ==> from' <= rows[i].at <= to'
    ensures CountBetween(rows[..n], workerId, from, to) <= CountBetween(rows, workerId, from', to')
  {
    if n == |rows| {
      assert rows[..n] == rows;
      if n > 0 {
        assert rows[..n - 1] == rows[..|rows| - 1];
        CountGrows(rows[..n - 1], n - 1, workerId, from, to, from', to');
        assert rows[..n - 1][..n - 1] == rows[..n - 1];
      }
    } else {
      assert rows[..|rows| - 1][..n] == rows[..n];
      CountGrows(rows[..|rows| - 1], n, workerId, from, to, from', to');
    }
  }

  /** The last counted row of an interval, and nothing in the interval after it. */
  lemma {:induction false} LastBetween(rows: seq<Cancellation>, workerId: string, from: int, to: int) returns (i: nat)
    requires CountBetween(rows, workerId, from, to) > 0
    ensures i < |rows| && Counted(rows[i], workerId) && from <= rows[i].at <= to
    ensures CountBetween(rows[..i + 1], workerId, from, to) == CountBetween(rows, workerId, from, to)
  {
    var before, c := rows[..|rows| - 1], rows[|rows| - 1];
    if Counted(c, workerId) && from <= c.at <= to {
      i := |rows| - 1;
      assert rows[..i + 1] == rows;
    } else {
      i := LastBetween(before, workerId, from, to);
      assert before[..i + 1] == rows[..i + 1];
    }
  }

  /** The worker's own cancellations, from a status that counts, in a closed stretch of
      time. */
  function InStretch(rows: seq<Cancellation>, workerId: string, from: int, to: int): set<int> {
    set i | 0 <= i < |rows| && rows[i].workerId == workerId && rows[i].cancelledBy == Some(WORKER) &&
            rows[i].fromStatus.Some? && rows[i].fromStatus.value in {PENDING, VIEWED, WAITING_PAYMENT, ACCEPTED, END} &&
            from <= rows[i].at <= to
  }

  /** How many in the closed stretch of `windowDays` days from `a` on. */
  function InWindow(rows: seq<Cancellation>, workerId: string, a: int, windowDays: int): nat {
    |InStretch(rows, workerId, a, a + windowDays * 86_400_000)|
  }

  lemma StretchMore(rows: seq<Cancellation>, workerId: string, from: int, to: int)
    requires rows != []
    ensures var n := |rows| - 1;
            InStretch(rows, workerId, from, to) ==
              InStretch(rows[..n], workerId, from, to) + if Counted(rows[n], workerId) && from <= rows[n].at <= to then {n} else {}
  {
    CountsInStretch(rows[|rows| - 1], workerId);
    assert forall i :: 0 <= i < |rows| - 1 ==> rows[..|rows| - 1][i] == rows[i];
  }

  lemma {:induction false} CountIsHowMany(rows: seq<Cancellation>, workerId: string, from: int, to: int)
    ensures CountBetween(rows, workerId, from, to) == |InStretch(rows, workerId, from, to)|
  {
    if rows != [] {
      var n := |rows| - 1;
      CountIsHowMany(rows[..n], workerId, from, to);
      StretchMore(rows, workerId, from, to);
      assert n !in InStretch(rows[..n], workerId, from, to);
    } else {
      assert InStretch(rows, workerId, from, to) == {};
    }
  }

  lemma CountsInStretch(c: Cancellation, workerId: string)
    ensures Counted(c, workerId) <==>
              c.workerId == workerId && c.cancelledBy == Some(WORKER) &&
              c.fromStatus.Some? && c.fromStatus.value in {PENDING, VIEWED, WAITING_PAYMENT, ACCEPTED, END}
  {
  }

  /** A rule that looks back from each cancellation never fires over the worker's whole
      history exactly when every closed stretch of `windowDays` holds fewer counted
      cancellations than the threshold. */
  lemma NeverSuspendedIff(rows: seq<Cancellation>, workerId: string, windowDays: int, threshold: real)
    requires InOrder(rows) && threshold > 0.0 && windowDays > 0
    ensures (forall i :: 0 <= i < |rows| ==> !SuspendsAt(rows, workerId, i, windowDays, Finite(threshold))) <==>
            (forall a :: InWindow(rows, workerId, a, windowDays) as real < threshold)
  {
    hide CountBetween, CountCountedCancellations, Counted, InStretch;
    var window := windowDays * DAY_MS;
    if a :| InWindow(rows, workerId, a, windowDays) as real >= threshold {
      CountIsHowMany(rows, workerId, a, a + window);
      var i := LastBetween(rows, workerId, a, a + window);
      var now := rows[i].at;
      var upTo := rows[..i + 1];
      assert forall j :: 0 <= j < |upTo| ==> upTo[j].at <= now;
      CountIsBetween(upTo, workerId, windowDays, now);
      assert upTo[..i + 1] == upTo;
      CountGrows(upTo, i + 1, workerId, a, a + window, now - window, now);
      assert SuspendsAt(rows, workerId, i, windowDays, Finite(threshold));
    }
    if i :| 0 <= i < |rows| && SuspendsAt(rows, workerId, i, windowDays, Finite(threshold)) {
      var now := rows[i].at;
      var upTo := rows[..i + 1];
      CountIsBetween(upTo, workerId, windowDays, now);
      CountGrows(rows, i + 1, workerId, now - window, now, now - window, now - window + window);
      CountIsHowMany(rows, workerId, now - window, now - window + window);
      assert InWindow(rows, workerId, now - window, windowDays) as real >= threshold;
    }
  }
}
