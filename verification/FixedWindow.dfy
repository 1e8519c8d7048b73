/** A counter that lasts a fixed time from its first increment and then starts over,
    seen from outside: how many counted events any interval of that length can hold. */
module FixedWindow {

  /** An event counted at time `at` by the counter's `life`-th lifetime. */
  datatype Hit = Hit(at: nat, life: nat)

  function InLife(log: seq<Hit>, life: nat): nat {
    if log == [] then 0
    else InLife(log[..|log| - 1], life) + if log[|log| - 1].life == life then 1 else 0
  }

  /** Events in the half-open interval from `a` to `b`. */
  function InInterval(log: seq<Hit>, a: int, b: int): nat {
    if log == [] then 0
    else InInterval(log[..|log| - 1], a, b) + if a <= log[|log| - 1].at < b then 1 else 0
  }

  /** `starts` gives the beginning of each lifetime, which is the moment of its first
      event. Lifetimes begin at least `window` apart and no event falls outside its
      own; none holds more than `limit` events. */
  predicate Kept(log: seq<Hit>, starts: seq<nat>, window: nat, limit: nat) {
    (forall i, j :: 0 <= i < j < |starts| ==> starts[i] + window <= starts[j]) &&
    (forall h :: h in log ==> h.life < |starts| && starts[h.life] <= h.at < starts[h.life] + window) &&
    (forall life: nat :: life < |starts| ==> Hit(starts[life], life) in log && InLife(log, life) <= limit)
  }

  /** The events in the interval all belong to lifetime `life` or the one after. */
  predicate TwoLives(log: seq<Hit>, a: int, b: int, life: nat) {
    forall h :: h in log && a <= h.at < b ==> h.life == life || h.life == life + 1
  }

  lemma {:induction false} IntervalWithinLives(log: seq<Hit>, a: int, b: int, life: nat)
    requires TwoLives(log, a, b, life)
    ensures InInterval(log, a, b) <= InLife(log, life) + InLife(log, life + 1)
    ensures (exists h :: h in log && h.life == life && !(a <= h.at < b)) ==>
              InInterval(log, a, b) < InLife(log, life) + InLife(log, life + 1)
    ensures (forall h :: h in log && a <= h.at < b ==> h.life == life) ==> InInterval(log, a, b) <= InLife(log, life)
  {
    if log != [] {
      var rest, last := log[..|log| - 1], log[|log| - 1];
      assert log == rest + [last];
      forall h | h in rest && a <= h.at < b
        ensures h.life == life || h.life == life + 1
      {
        assert h in log;
      }
      IntervalWithinLives(rest, a, b, life);
    }
  }

  /** The first lifetime with an event in the interval. */
  lemma {:induction false} FirstLife(log: seq<Hit>, a: int, b: int) returns (i: nat)
    requires InInterval(log, a, b) > 0
    ensures i < |log| && a <= log[i].at < b
    ensures forall h :: h in log && a <= h.at < b ==> log[i].life <= h.life
  {
    var rest, last := log[..|log| - 1], log[|log| - 1];
    if InInterval(rest, a, b) > 0 {
      i := FirstLife(rest, a, b);
      if a <= last.at < b && last.life < rest[i].life {
        i := |log| - 1;
      }
    } else {
      i := |log| - 1;
      NoneInside(rest, a, b);
    }
  }

  lemma {:induction false} NoneInside(log: seq<Hit>, a: int, b: int)
    requires InInterval(log, a, b) == 0
    ensures forall h :: h in log ==> !(a <= h.at < b)
  {
    if log != [] {
      NoneInside(log[..|log| - 1], a, b);
    }
  }

  /** Between two lifetimes that are not neighbours lies a whole window. */
  lemma LivesApart(log: seq<Hit>, starts: seq<nat>, window: nat, limit: nat, h: Hit, later: Hit)
    requires Kept(log, starts, window, limit) && h in log && later in log && h.life + 1 < later.life
    ensures h.at + window < later.at
  {
    assert starts[h.life] + window <= starts[h.life + 1];
    assert starts[h.life + 1] + window <= starts[later.life];
  }

  /** An interval as long as the window meets at most two lifetimes. When it meets two,
      the first began before the interval did, so its first event is outside: twice the
      limit, less one. */
  lemma AnyInterval(log: seq<Hit>, starts: seq<nat>, window: nat, limit: nat, a: int)
    requires Kept(log, starts, window, limit) && limit >= 1
    ensures InInterval(log, a, a + window) <= 2 * limit - 1
  {
    var b := a + window;
    if InInterval(log, a, b) > 0 {
      var i := FirstLife(log, a, b);
      var life := log[i].life;
      assert log[i] in log;
      forall h | h in log && a <= h.at < b && h.life > life + 1
        ensures false
      {
        LivesApart(log, starts, window, limit, log[i], h);
      }
      IntervalWithinLives(log, a, b, life);
      if h :| h in log && a <= h.at < b && h.life != life {
        assert starts[life] + window <= starts[life + 1];
        assert Hit(starts[life], life) in log;
      }
    }
  }

  lemma {:induction false} NoneInLife(log: seq<Hit>, life: nat)
    requires forall h :: h in log ==> h.life != life
    ensures InLife(log, life) == 0
  {
    if log != [] {
      assert log[|log| - 1] in log;
      NoneInLife(log[..|log| - 1], life);
    }
  }

  /** An increment while the counter lives adds to the current lifetime. */
  lemma CountOn(log: seq<Hit>, starts: seq<nat>, window: nat, limit: nat, now: nat)
    requires Kept(log, starts, window, limit)
    requires starts != [] && starts[|starts| - 1] <= now < starts[|starts| - 1] + window
    requires InLife(log, |starts| - 1) < limit
    ensures Kept(log + [Hit(now, |starts| - 1)], starts, window, limit)
    ensures InLife(log + [Hit(now, |starts| - 1)], |starts| - 1) == InLife(log, |starts| - 1) + 1
  {
    var more := log + [Hit(now, |starts| - 1)];
    assert more[..|more| - 1] == log;
    forall life: nat | life < |starts|
      ensures Hit(starts[life], life) in more && InLife(more, life) <= limit
    {
      assert Hit(starts[life], life) in log;
    }
  }

  /** An increment of a counter that has run out begins a lifetime. */
  lemma StartOver(log: seq<Hit>, starts: seq<nat>, window: nat, limit: nat, now: nat)
    requires Kept(log, starts, window, limit) && limit >= 1 && window >= 1
    requires starts != [] ==> starts[|starts| - 1] + window <= now
    ensures Kept(log + [Hit(now, |starts|)], starts + [now], window, limit)
    ensures InLife(log + [Hit(now, |starts|)], |starts|) == 1
  {
    var more, begun := log + [Hit(now, |starts|)], starts + [now];
    assert more[..|more| - 1] == log;
    NoneInLife(log, |starts|);
    forall i, j | 0 <= i < j < |begun|
      ensures begun[i] + window <= begun[j]
    {
      if j == |starts| && i < |starts| - 1 {
        assert starts[i] + window <= starts[|starts| - 1];
      }
    }
    forall life: nat | life < |begun|
      ensures Hit(begun[life], life) in more && InLife(more, life) <= limit
    {
      if life < |starts| {
        assert Hit(starts[life], life) in log;
      } else {
        assert more[|log|] == Hit(begun[life], life);
      }
    }
  }
}
