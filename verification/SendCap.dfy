/** The cap on codes sent to one identifier, over whole runs of sends and clock ticks. */
module SendCap {
  import opened Basics
  import opened RedisModel
  import opened OtpStore
  import opened FixedWindow

  const WINDOW_MS: nat := OTP_SEND_WINDOW_SECONDS * SECOND_MS

  datatype Op = Send | Wait(ms: nat)

  /** Beside the server: the accepted sends, and when each lifetime of the counter began. */
  datatype Run = Run(db: Db, accepted: seq<Hit>, starts: seq<nat>)

  predicate Accepts(db: Db, key: Key) {
    db.Countable(key) && db.CountOf(key) < OTP_MAX_SENDS
  }

  function Step(r: Run, key: Key, op: Op): Run {
    match op
    case Wait(ms) => r.(db := r.db.Tick(ms))
    case Send =>
      if !r.db.Countable(key) then r
      else
        var db := Counted(r.db, key, OTP_SEND_WINDOW_SECONDS);
        if !r.db.Live(key) then Run(db, r.accepted + [Hit(r.db.now, |r.starts|)], r.starts + [r.db.now])
        else if Accepts(r.db, key) && r.starts != [] then Run(db, r.accepted + [Hit(r.db.now, |r.starts| - 1)], r.starts)
        else r.(db := db)
  }

  function Ran(db: Db, key: Key, ops: seq<Op>): Run {
    if ops == [] then Run(db, [], []) else Step(Ran(db, key, ops[..|ops| - 1]), key, ops[|ops| - 1])
  }

  predicate Invariant(r: Run, key: Key) {
    r.db.Countable(key) && Kept(r.accepted, r.starts, WINDOW_MS, OTP_MAX_SENDS) &&
    (r.starts != [] ==> r.starts[|r.starts| - 1] <= r.db.now) &&
    (r.db.Live(key) <==> r.starts != [] && r.db.now < r.starts[|r.starts| - 1] + WINDOW_MS) &&
    (r.db.Live(key) ==>
       r.db.Expiry(key) == Some(r.starts[|r.starts| - 1] + WINDOW_MS) && 1 <= r.db.CountOf(key) &&
       InLife(r.accepted, |r.starts| - 1) == Least(r.db.CountOf(key), OTP_MAX_SENDS))
  }

  lemma FirstSendKeeps(r: Run, key: Key)
    requires Invariant(r, key) && !r.db.Live(key)
    ensures Invariant(Step(r, key, Send), key)
  {
    hide Kept, InLife, Counted;
    CountedCounter(r.db, key, OTP_SEND_WINDOW_SECONDS);
    StartOver(r.accepted, r.starts, WINDOW_MS, OTP_MAX_SENDS, r.db.now);
  }

  lemma LaterSendKeeps(r: Run, key: Key)
    requires Invariant(r, key) && r.db.Live(key)
    ensures Invariant(Step(r, key, Send), key)
  {
    hide Kept, InLife, Counted;
    CountedCounter(r.db, key, OTP_SEND_WINDOW_SECONDS);
    if Accepts(r.db, key) {
      CountOn(r.accepted, r.starts, WINDOW_MS, OTP_MAX_SENDS, r.db.now);
    }
  }

  lemma StepKeepsInvariant(r: Run, key: Key, op: Op)
    requires Invariant(r, key)
    ensures Invariant(Step(r, key, op), key)
  {
    if op.Send? {
      if r.db.Live(key) {
        LaterSendKeeps(r, key);
      } else {
        FirstSendKeeps(r, key);
      }
    }
  }

  lemma {:induction false} RanKeepsInvariant(db: Db, key: Key, ops: seq<Op>)
    requires !db.Live(key)
    ensures Invariant(Ran(db, key, ops), key)
  {
    if ops != [] {
      RanKeepsInvariant(db, key, ops[..|ops| - 1]);
      StepKeepsInvariant(Ran(db, key, ops[..|ops| - 1]), key, ops[|ops| - 1]);
    }
  }

  /** Whatever the fifteen minutes looked at, at most nine sends were accepted in them. */
  lemma AcceptedPerInterval(db: Db, key: Key, ops: seq<Op>, a: int)
    requires !db.Live(key)
    ensures InInterval(Ran(db, key, ops).accepted, a, a + 15 * 60 * 1000) <= 9
  {
    RanKeepsInvariant(db, key, ops);
    var r := Ran(db, key, ops);
    AnyInterval(r.accepted, r.starts, WINDOW_MS, OTP_MAX_SENDS, a);
  }

  /** A send is refused exactly when five were accepted since a moment less than
      fifteen minutes ago, the moment the first of them was: the sends refused since
      count for nothing. */
  lemma SendRefusedIff(db: Db, key: Key, ops: seq<Op>)
    requires !db.Live(key)
    ensures var r := Ran(db, key, ops);
            !Accepts(r.db, key) <==>
              r.starts != [] &&
              var start := r.starts[|r.starts| - 1];
              r.db.now < start + 15 * 60 * 1000 && InLife(r.accepted, |r.starts| - 1) == 5 &&
              Hit(start, |r.starts| - 1) in r.accepted
  {
    RanKeepsInvariant(db, key, ops);
  }

  /** A send within a window, refused or not, leaves the end of the window where it was. */
  lemma SendsNeverLengthen(db: Db, key: Key, ops: seq<Op>)
    requires !db.Live(key)
    ensures var r := Ran(db, key, ops);
            r.db.Live(key) ==>
              Step(r, key, Send).db.Live(key) && Step(r, key, Send).db.Expiry(key) == r.db.Expiry(key)
  {
    RanKeepsInvariant(db, key, ops);
  }

  // ------------------------------------------------- nine is reached

  /** The counter stands at `count`, to end at `end`, and `n` accepted sends fall in
      the quarter of an hour from 1. */
  predicate Shape(r: Run, key: Key, now: nat, end: nat, count: nat, n: nat) {
    r.db.now == now && r.db.Countable(key) && r.db.CountOf(key) == count && (r.db.Live(key) <==> count > 0) &&
    (r.db.Live(key) ==> r.starts != [] && r.db.Expiry(key) == Some(end)) && InInterval(r.accepted, 1, 900_001) == n
  }

  lemma OneSend(r: Run, key: Key, now: nat, end: nat, count: nat, n: nat)
    requires Shape(r, key, now, end, count, n) && count < OTP_MAX_SENDS && 1 <= now < 900_001
    requires count == 0 ==> end == now + WINDOW_MS
    ensures Shape(Step(r, key, Send), key, now, end, count + 1, n + 1)
  {
    CountedCounter(r.db, key, OTP_SEND_WINDOW_SECONDS);
    var s := Step(r, key, Send);
    assert s.accepted[..|s.accepted| - 1] == r.accepted;
  }

  lemma MoreSends(db: Db, key: Key, ops: seq<Op>, now: nat, end: nat, count: nat, n: nat, sends: nat) returns (more: seq<Op>)
    requires Shape(Ran(db, key, ops), key, now, end, count, n)
    requires count + sends <= OTP_MAX_SENDS && 1 <= now < 900_001 && (count == 0 ==> end == now + WINDOW_MS)
    ensures Shape(Ran(db, key, more), key, now, end, count + sends, n + sends)
  {
    more := ops;
    for i := 0 to sends
      invariant Shape(Ran(db, key, more), key, now, end, count + i, n + i)
    {
      OneSend(Ran(db, key, more), key, now, end, count + i, n + i);
      assert (more + [Send])[..|more|] == more;
      more := more + [Send];
    }
  }

  lemma Pause(db: Db, key: Key, ops: seq<Op>, now: nat, end: nat, count: nat, n: nat, ms: nat) returns (more: seq<Op>)
    requires Shape(Ran(db, key, ops), key, now, end, count, n)
    ensures Shape(Ran(db, key, more), key, now + ms, end, if now + ms < end then count else 0, n)
  {
    more := ops + [Wait(ms)];
    assert more[..|ops|] == ops;
  }

  lemma FirstSend(key: Key)
    ensures Shape(Ran(Db(map[], 0), key, [Send]), key, 0, 900_000, 1, 0)
  {
    var db := Db(map[], 0);
    assert [Send][..0] == [];
    assert Ran(db, key, []) == Run(db, [], []);
    var s := Step(Run(db, [], []), key, Send);
    assert s.accepted == [Hit(0, 0)] && s.accepted[..0] == [];
    assert Ran(db, key, [Send]) == s;
  }

  /** One send, four more just before its window ends and five just after. */
  lemma NineAreReached(key: Key) returns (ops: seq<Op>)
    ensures InInterval(Ran(Db(map[], 0), key, ops).accepted, 1, 1 + 15 * 60 * 1000) == 9
  {
    var db := Db(map[], 0);
    ops := [Send];
    FirstSend(key);
    ops := Pause(db, key, ops, 0, 900_000, 1, 0, 899_999);
    ops := MoreSends(db, key, ops, 899_999, 900_000, 1, 0, 4);
    ops := Pause(db, key, ops, 899_999, 900_000, 5, 4, 1);
    ops := MoreSends(db, key, ops, 900_000, 1_800_000, 0, 4, 5);
  }
}
