/** The day-long lockout when calls overlap. A guess is three steps: it is let in if
    the day's counter is below the limit, its code is judged by the script, and a miss
    is counted. At most `k` guesses are under way at any time. */
module OtpLockout {
  import opened Basics
  import opened RedisModel
  import opened OtpStore
  import opened FixedWindow

  const DAY_MS: nat := OTP_DAILY_MISS_WINDOW_SECONDS * SECOND_MS

  datatype Op =
    | LetIn(id: nat)
    | Judge(id: nat, otp: string)
    | CountMiss(id: nat)
    | Store(otp: string)
    | Wait(ms: nat)

  /** `judging` holds the calls let in and not judged yet, `missed` those judged wrong
      and not counted yet. */
  datatype Run = Run(db: Db, judging: set<nat>, missed: set<nat>, counted: seq<Hit>, starts: seq<nat>)
  {
    function UnderWay(): nat { |judging| + |missed| }
  }

  function Step(r: Run, ks: OtpKeys, k: nat, op: Op): Run {
    if !CountersHoldNumbers(r.db, ks) then r
    else
      match op
      case Wait(ms) => r.(db := r.db.Tick(ms))
      case Store(otp) => r.(db := Stored(r.db, ks, otp))
      case LetIn(id) =>
        if id in r.judging + r.missed || r.UnderWay() >= k || LockedOut(r.db, ks) then r
        else r.(judging := r.judging + {id})
      case Judge(id, otp) =>
        if id !in r.judging then r
        else if Matches(r.db, ks, otp) then r.(db := Guessed(r.db, ks, otp), judging := r.judging - {id})
        else r.(db := Guessed(r.db, ks, otp), judging := r.judging - {id}, missed := r.missed + {id})
      case CountMiss(id) =>
        if id !in r.missed then r
        else
          var db := Counted(r.db, ks.Day(), OTP_DAILY_MISS_WINDOW_SECONDS);
          if !r.db.Live(ks.Day()) || r.starts == [] then
            Run(db, r.judging, r.missed - {id}, r.counted + [Hit(r.db.now, |r.starts|)], r.starts + [r.db.now])
          else
            Run(db, r.judging, r.missed - {id}, r.counted + [Hit(r.db.now, |r.starts| - 1)], r.starts)
  }

  function Ran(db: Db, ks: OtpKeys, k: nat, ops: seq<Op>): Run {
    if ops == [] then Run(db, {}, {}, [], []) else Step(Ran(db, ks, k, ops[..|ops| - 1]), ks, k, ops[|ops| - 1])
  }

  predicate Start(db: Db, ks: OtpKeys) {
    ks.Distinct() && CountersHoldNumbers(db, ks) && !db.Live(ks.Day())
  }

  /** The day's counter is the number of misses its lifetime has counted, and lasts a
      day from the first. */
  predicate DayCounter(r: Run, ks: OtpKeys) {
    r.db.Countable(ks.Day()) &&
    (r.starts != [] ==> r.starts[|r.starts| - 1] <= r.db.now) &&
    (r.db.Live(ks.Day()) <==> r.starts != [] && r.db.now < r.starts[|r.starts| - 1] + DAY_MS) &&
    (r.db.Live(ks.Day()) ==>
       r.db.Expiry(ks.Day()) == Some(r.starts[|r.starts| - 1] + DAY_MS) && 1 <= r.db.CountOf(ks.Day()) &&
       InLife(r.counted, |r.starts| - 1) == r.db.CountOf(ks.Day()))
  }

  /** A call under way is a miss that may still be counted. */
  predicate Invariant(r: Run, ks: OtpKeys, k: nat) {
    CountersHoldNumbers(r.db, ks) && DayCounter(r, ks) && Kept(r.counted, r.starts, DAY_MS, 19 + k) &&
    r.judging !! r.missed && r.UnderWay() <= k && r.db.CountOf(ks.Day()) + r.UnderWay() <= 19 + k
  }

  lemma FirstMissKeeps(r: Run, ks: OtpKeys, k: nat, id: nat)
    requires ks.Distinct() && Invariant(r, ks, k) && id in r.missed && !r.db.Live(ks.Day())
    ensures Invariant(Step(r, ks, k, CountMiss(id)), ks, k)
  {
    hide Kept, InLife;
    ks.KeysDiffer();
    CountedCounter(r.db, ks.Day(), OTP_DAILY_MISS_WINDOW_SECONDS);
    StartOver(r.counted, r.starts, DAY_MS, 19 + k, r.db.now);
  }

  lemma LaterMissKeeps(r: Run, ks: OtpKeys, k: nat, id: nat)
    requires ks.Distinct() && Invariant(r, ks, k) && id in r.missed && r.db.Live(ks.Day())
    ensures Invariant(Step(r, ks, k, CountMiss(id)), ks, k)
  {
    hide Kept, InLife;
    ks.KeysDiffer();
    CountedCounter(r.db, ks.Day(), OTP_DAILY_MISS_WINDOW_SECONDS);
    CountOn(r.counted, r.starts, DAY_MS, 19 + k, r.db.now);
    assert |r.missed - {id}| == |r.missed| - 1;
  }

  lemma JudgeKeeps(r: Run, ks: OtpKeys, k: nat, id: nat, otp: string)
    requires ks.Distinct() && Invariant(r, ks, k)
    ensures Invariant(Step(r, ks, k, Judge(id, otp)), ks, k)
  {
    hide Kept, InLife, Guessed, Matches;
    GuessKeepsCounters(r.db, ks, otp);
  }

  lemma OthersKeep(r: Run, ks: OtpKeys, k: nat, op: Op)
    requires ks.Distinct() && Invariant(r, ks, k) && (op.Store? || op.Wait? || op.LetIn?)
    ensures Invariant(Step(r, ks, k, op), ks, k)
  {
    hide Kept, InLife;
    ks.KeysDiffer();
  }

  lemma StepKeepsInvariant(r: Run, ks: OtpKeys, k: nat, op: Op)
    requires ks.Distinct() && Invariant(r, ks, k)
    ensures Invariant(Step(r, ks, k, op), ks, k)
  {
    if op.CountMiss? {
      if op.id !in r.missed {
      } else if r.db.Live(ks.Day()) {
        LaterMissKeeps(r, ks, k, op.id);
      } else {
        FirstMissKeeps(r, ks, k, op.id);
      }
    } else if op.Judge? {
      JudgeKeeps(r, ks, k, op.id, op.otp);
    } else {
      OthersKeep(r, ks, k, op);
    }
  }

  lemma {:induction false} RanKeepsInvariant(db: Db, ks: OtpKeys, k: nat, ops: seq<Op>)
    requires Start(db, ks)
    ensures Invariant(Ran(db, ks, k, ops), ks, k)
  {
    if ops != [] {
      RanKeepsInvariant(db, ks, k, ops[..|ops| - 1]);
      StepKeepsInvariant(Ran(db, ks, k, ops[..|ops| - 1]), ks, k, ops[|ops| - 1]);
    }
  }

  /** One lifetime of the day's counter records at most 19 + k misses, and whatever the
      24 hours looked at, at most 37 + 2k were counted in them. */
  lemma MissesPerDay(db: Db, ks: OtpKeys, k: nat, ops: seq<Op>, life: nat, a: int)
    requires Start(db, ks) && k >= 1
    ensures InLife(Ran(db, ks, k, ops).counted, life) <= 19 + k
    ensures InInterval(Ran(db, ks, k, ops).counted, a, a + 24 * 60 * 60 * 1000) <= 37 + 2 * k
  {
    RanKeepsInvariant(db, ks, k, ops);
    var r := Ran(db, ks, k, ops);
    AnyInterval(r.counted, r.starts, DAY_MS, 19 + k, a);
    if life >= |r.starts| {
      NoneInLife(r.counted, life);
    }
  }

  /** One call at a time: the limit of 20 is the limit, and no 24 hours hold 40. */
  lemma OneCallAtATime(db: Db, ks: OtpKeys, ops: seq<Op>, life: nat, a: int)
    requires Start(db, ks)
    ensures InLife(Ran(db, ks, 1, ops).counted, life) <= OTP_DAILY_MISS_LIMIT
    ensures InInterval(Ran(db, ks, 1, ops).counted, a, a + 24 * 60 * 60 * 1000) <= 39
  {
    MissesPerDay(db, ks, 1, ops, life, a);
  }

  /** Nothing is let in from the twentieth miss until a day after the first, whatever
      codes are stored meanwhile. */
  lemma LockoutHolds(db: Db, ks: OtpKeys, k: nat, ops: seq<Op>)
    requires Start(db, ks)
    ensures var r := Ran(db, ks, k, ops);
            r.db.Countable(ks.Day()) &&
            (LockedOut(r.db, ks) <==>
               r.starts != [] && r.db.now < r.starts[|r.starts| - 1] + 24 * 60 * 60 * 1000 &&
               InLife(r.counted, |r.starts| - 1) >= 20)
  {
    RanKeepsInvariant(db, ks, k, ops);
  }

  /** Three steps on end are one `consumeOtpWithLockout`: same answer, same server. */
  lemma WholeCall(r: Run, ks: OtpKeys, id: nat, otp: string)
    requires ks.Distinct() && CountersHoldNumbers(r.db, ks) && r.judging == {} && r.missed == {}
    ensures CountersHoldNumbers(Guessed(r.db, ks, otp), ks)
    ensures var s := Step(Step(Step(r, ks, 1, LetIn(id)), ks, 1, Judge(id, otp)), ks, 1, CountMiss(id));
            s.judging == {} && s.missed == {} &&
            s.db == if LockedOut(r.db, ks) then r.db
                    else if Matches(r.db, ks, otp) then Guessed(r.db, ks, otp)
                    else Counted(Guessed(r.db, ks, otp), ks.Day(), OTP_DAILY_MISS_WINDOW_SECONDS)
  {
    ks.KeysDiffer();
    GuessKeepsCounters(r.db, ks, otp);
  }

  // ------------------------------------------------- the bounds are reached

  /** Where a run stands: the clock, when the day's counter ends, its count, how many
      lifetimes it has had, and the misses counted in the day from `from` on. */
  datatype Mark = Mark(now: nat, end: nat, count: nat, lives: nat, from: nat, inside: nat)
  {
    function Tick(ms: nat): Mark {
      this.(now := now + ms, count := if now + ms < end then count else 0)
    }

    /** One more miss within the day looked at. */
    function Next(): Mark {
      Mark(now, if count == 0 then now + DAY_MS else end, count + 1, if count == 0 then lives + 1 else lives,
           from, inside + if from <= now < from + DAY_MS then 1 else 0)
    }

    function Plus(n: nat): Mark
      decreases n
    {
      if n == 0 then this else Next().Plus(n - 1)
    }
  }

  /** No code is live, the calls of `judging` and `missed` are under way, and the run
      stands where `m` says. */
  predicate Shape(r: Run, ks: OtpKeys, judging: set<nat>, missed: set<nat>, m: Mark) {
    CountersHoldNumbers(r.db, ks) && !r.db.Live(ks.Code()) && r.judging == judging && r.missed == missed &&
    r.db.now == m.now && r.db.CountOf(ks.Day()) == m.count && (r.db.Live(ks.Day()) <==> m.count > 0) &&
    (r.db.Live(ks.Day()) ==> r.db.Expiry(ks.Day()) == Some(m.end)) &&
    |r.starts| == m.lives && (m.count > 0 ==> m.lives > 0 && InLife(r.counted, m.lives - 1) == m.count) &&
    (forall h :: h in r.counted ==> h.life < m.lives) && InInterval(r.counted, m.from, m.from + DAY_MS) == m.inside
  }

  lemma Append(db: Db, ks: OtpKeys, k: nat, ops: seq<Op>, op: Op)
    ensures Ran(db, ks, k, ops + [op]) == Step(Ran(db, ks, k, ops), ks, k, op)
  {
    assert (ops + [op])[..|ops|] == ops;
  }

  function Below(n: nat): set<nat> {
    if n == 0 then {} else Below(n - 1) + {n - 1}
  }

  lemma {:induction false} BelowIs(n: nat)
    ensures |Below(n)| == n && forall i: nat :: i in Below(n) <==> i < n
  {
    if n > 0 {
      BelowIs(n - 1);
    }
  }

  lemma NextOf(n: nat, total: nat)
    requires n < total
    ensures n in Below(total) - Below(n) && Below(total) - Below(n) - {n} == Below(total) - Below(n + 1)
    ensures Below(n + 1) - {n} == Below(n) && n !in Below(n)
  {
    BelowIs(n);
    BelowIs(total);
  }

  lemma HitAdded(counted: seq<Hit>, h: Hit, life: nat, from: nat)
    ensures InLife(counted + [h], life) == InLife(counted, life) + if h.life == life then 1 else 0
    ensures InInterval(counted + [h], from, from + DAY_MS) ==
              InInterval(counted, from, from + DAY_MS) + if from <= h.at < from + DAY_MS then 1 else 0
  {
    assert (counted + [h])[..|counted|] == counted;
  }

  lemma CountOne(r: Run, ks: OtpKeys, k: nat, missed: set<nat>, id: nat, m: Mark)
    requires ks.Distinct() && Shape(r, ks, {}, missed, m) && id in missed
    ensures Shape(Step(r, ks, k, CountMiss(id)), ks, {}, missed - {id}, m.Next())
  {
    hide OtpKeys.Distinct, OtpKeys.Code, OtpKeys.Misses, OtpKeys.Day, InLife, InInterval;
    ks.KeysDiffer();
    CountedCounter(r.db, ks.Day(), OTP_DAILY_MISS_WINDOW_SECONDS);
    var life := if m.count == 0 then m.lives else m.lives - 1;
    HitAdded(r.counted, Hit(r.db.now, life), life, m.from);
    if m.count == 0 {
      NoneInLife(r.counted, life);
    }
  }

  lemma JudgeOne(r: Run, ks: OtpKeys, k: nat, judging: set<nat>, missed: set<nat>, id: nat, m: Mark)
    requires ks.Distinct() && Shape(r, ks, judging, missed, m) && id in judging
    ensures Shape(Step(r, ks, k, Judge(id, "wrong")), ks, judging - {id}, missed + {id}, m)
  {
  }

  lemma LetInOne(r: Run, ks: OtpKeys, k: nat, judging: set<nat>, id: nat, m: Mark)
    requires Shape(r, ks, judging, {}, m) && id !in judging && |judging| < k && m.count < 20
    ensures Shape(Step(r, ks, k, LetIn(id)), ks, judging + {id}, {}, m)
  {
    assert judging + {} == judging;
  }

  lemma {:induction false} AllLetIn(db: Db, ks: OtpKeys, k: nat, ops: seq<Op>, n: nat, m: Mark) returns (more: seq<Op>)
    requires ks.Distinct() && n <= k && m.count < 20 && Shape(Ran(db, ks, k, ops), ks, {}, {}, m)
    ensures Shape(Ran(db, ks, k, more), ks, Below(n), {}, m)
  {
    hide Step, Shape, Ran;
    if n == 0 {
      more := ops;
    } else {
      more := AllLetIn(db, ks, k, ops, n - 1, m);
      BelowIs(n - 1);
      Append(db, ks, k, more, LetIn(n - 1));
      LetInOne(Ran(db, ks, k, more), ks, k, Below(n - 1), n - 1, m);
      more := more + [LetIn(n - 1)];
    }
  }

  lemma {:induction false} AllJudged(db: Db, ks: OtpKeys, k: nat, ops: seq<Op>, n: nat, total: nat, m: Mark) returns (more: seq<Op>)
    requires ks.Distinct() && n <= total && Shape(Ran(db, ks, k, ops), ks, Below(total), {}, m)
    ensures Shape(Ran(db, ks, k, more), ks, Below(total) - Below(n), Below(n), m)
  {
    hide Step, Shape, Ran;
    if n == 0 {
      assert Below(total) - Below(0) == Below(total);
      more := ops;
    } else {
      more := AllJudged(db, ks, k, ops, n - 1, total, m);
      Append(db, ks, k, more, Judge(n - 1, "wrong"));
      NextOf(n - 1, total);
      JudgeOne(Ran(db, ks, k, more), ks, k, Below(total) - Below(n - 1), Below(n - 1), n - 1, m);
      more := more + [Judge(n - 1, "wrong")];
    }
  }

  lemma {:induction false} AllCounted(db: Db, ks: OtpKeys, k: nat, ops: seq<Op>, n: nat, m: Mark) returns (more: seq<Op>)
    requires ks.Distinct() && Shape(Ran(db, ks, k, ops), ks, {}, Below(n), m)
    ensures Shape(Ran(db, ks, k, more), ks, {}, {}, m.Plus(n))
    decreases n
  {
    hide Step, Shape, Ran;
    more := ops;
    if n == 0 {
      assert Below(0) == {};
    } else {
      Append(db, ks, k, ops, CountMiss(n - 1));
      NextOf(n - 1, n);
      CountOne(Ran(db, ks, k, ops), ks, k, Below(n), n - 1, m);
      more := AllCounted(db, ks, k, ops + [CountMiss(n - 1)], n - 1, m.Next());
    }
  }

  /** `n` calls at once. */
  lemma Batch(db: Db, ks: OtpKeys, k: nat, ops: seq<Op>, n: nat, m: Mark) returns (more: seq<Op>)
    requires ks.Distinct() && n <= k && m.count < 20 && Shape(Ran(db, ks, k, ops), ks, {}, {}, m)
    ensures Shape(Ran(db, ks, k, more), ks, {}, {}, m.Plus(n))
  {
    hide Shape, Ran;
    more := AllLetIn(db, ks, k, ops, n, m);
    more := AllJudged(db, ks, k, more, n, n, m);
    assert Below(n) - Below(n) == {};
    more := AllCounted(db, ks, k, more, n, m);
  }

  lemma {:induction false} PlusIs(m: Mark, n: nat)
    requires n > 0
    ensures var p := m.Plus(n);
            && p.now == m.now && p.from == m.from && p.count == m.count + n
            && p.end == (if m.count == 0 then m.now + DAY_MS else m.end)
            && p.lives == (if m.count == 0 then m.lives + 1 else m.lives)
            && p.inside == m.inside + if m.from <= m.now < m.from + DAY_MS then n else 0
    decreases n
  {
    if n > 1 {
      PlusIs(m.Next(), n - 1);
    }
  }

  lemma {:induction false} PlusMore(m: Mark, a: nat, b: nat)
    ensures m.Plus(a).Plus(b) == m.Plus(a + b)
    decreases a
  {
    if a > 0 {
      PlusMore(m.Next(), a - 1, b);
    }
  }

  /** Calls one by one up to the nineteenth miss, then `k` at once. */
  lemma FillDay(db: Db, ks: OtpKeys, k: nat, ops: seq<Op>, m: Mark) returns (more: seq<Op>)
    requires ks.Distinct() && k >= 1 && m.count <= 19 && Shape(Ran(db, ks, k, ops), ks, {}, {}, m)
    ensures Shape(Ran(db, ks, k, more), ks, {}, {}, m.Plus(19 - m.count + k))
  {
    hide Shape, Ran;
    more := ops;
    var n := 19 - m.count;
    for i := 0 to n
      invariant Shape(Ran(db, ks, k, more), ks, {}, {}, m.Plus(i)) && m.Plus(i).count == m.count + i
    {
      PlusIs(m, i + 1);
      PlusMore(m, i, 1);
      more := Batch(db, ks, k, more, 1, m.Plus(i));
    }
    more := Batch(db, ks, k, more, k, m.Plus(n));
    PlusMore(m, n, k);
  }

  lemma Pause(db: Db, ks: OtpKeys, k: nat, ops: seq<Op>, ms: nat, m: Mark)
    requires Shape(Ran(db, ks, k, ops), ks, {}, {}, m)
    ensures Shape(Ran(db, ks, k, ops + [Wait(ms)]), ks, {}, {}, m.Tick(ms))
  {
    Append(db, ks, k, ops, Wait(ms));
  }

  lemma Empty(ks: OtpKeys, start: nat, k: nat, from: nat)
    ensures Shape(Ran(Db(map[], start), ks, k, []), ks, {}, {}, Mark(start, 0, 0, 0, from, 0))
  {
  }

  /** The bound on one lifetime is exact. */
  lemma BoundIsReached(ks: OtpKeys, start: nat, k: nat) returns (ops: seq<Op>)
    requires ks.Distinct() && k >= 1
    ensures Start(Db(map[], start), ks)
    ensures InLife(Ran(Db(map[], start), ks, k, ops).counted, 0) == 19 + k
  {
    var m := Mark(start, 0, 0, 0, start, 0);
    Empty(ks, start, k, start);
    ops := FillDay(Db(map[], start), ks, k, [], m);
    PlusIs(m, 19 + k);
  }

  /** One miss, and a day less a millisecond later the rest of its lifetime. */
  lemma LateMisses(db: Db, ks: OtpKeys, start: nat, k: nat) returns (ops: seq<Op>)
    requires ks.Distinct() && k >= 1 && db == Db(map[], start)
    ensures Shape(Ran(db, ks, k, ops), ks, {}, {}, Mark(start + DAY_MS, start + DAY_MS, 0, 1, start + 1, 18 + k))
  {
    hide Ran, Shape, Mark.Plus;
    var first := Mark(start, 0, 0, 0, start + 1, 0);
    Empty(ks, start, k, start + 1);
    ops := Batch(db, ks, k, [], 1, first);
    PlusIs(first, 1);
    Pause(db, ks, k, ops, DAY_MS - 1, first.Plus(1));
    ops := ops + [Wait(DAY_MS - 1)];
    var late := first.Plus(1).Tick(DAY_MS - 1);
    ops := FillDay(db, ks, k, ops, late);
    PlusIs(late, 18 + k);
    Pause(db, ks, k, ops, 1, late.Plus(18 + k));
    ops := ops + [Wait(1)];
  }

  /** And as many again as a lifetime holds. */
  lemma BothLives(db: Db, ks: OtpKeys, start: nat, k: nat) returns (ops: seq<Op>, m: Mark)
    requires ks.Distinct() && k >= 1 && db == Db(map[], start)
    ensures Shape(Ran(db, ks, k, ops), ks, {}, {}, m) && m.from == start + 1 && m.inside == 37 + 2 * k
  {
    hide Ran, Shape, Mark.Plus, OtpKeys.Distinct;
    ops := LateMisses(db, ks, start, k);
    var again := Mark(start + DAY_MS, start + DAY_MS, 0, 1, start + 1, 18 + k);
    ops := FillDay(db, ks, k, ops, again);
    PlusIs(again, 19 + k);
    m := again.Plus(19 + k);
  }

  /** So is the bound on a day: the first miss of a lifetime just before it, all the
      others at the end of the lifetime, and as many as one holds just after. */
  lemma DayIsReached(ks: OtpKeys, start: nat, k: nat) returns (ops: seq<Op>)
    requires ks.Distinct() && k >= 1
    ensures Start(Db(map[], start), ks)
    ensures InInterval(Ran(Db(map[], start), ks, k, ops).counted, start + 1, start + 1 + 24 * 60 * 60 * 1000) == 37 + 2 * k
  {
    var m;
    ops, m := BothLives(Db(map[], start), ks, start, k);
  }
}
