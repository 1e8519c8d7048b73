/** The code store when calls overlap. `storeOtp` is two commands, SET then DEL, and
    other stores, guesses and the clock may come between them; the Lua script is one
    step. A DEL that comes late, or the end of a counter an earlier code left behind,
    resets the counter of a code that has already met misses, and each such reset is
    worth four more guesses. */
module OtpInterleaved {
  import opened Basics
  import opened RedisModel
  import opened OtpStore
  import Atomic = OtpRuns

  datatype Op = SetCode(otp: string) | DelMisses | Guess(otp: string) | Wait(ms: nat)

  /** A stored code, the misses and hits that met it while live, and how often its
      counter was reset, once it had met a miss and while it stayed live, by a DEL
      and by the counter running out. */
  datatype Issued = Issued(misses: nat, hits: nat, byDel: nat, byExpiry: nat)
  {
    function Resets(): nat { byDel + byExpiry }
  }

  /** `deleting` counts the stores that have done their SET and not yet their DEL. */
  datatype Run = Run(db: Db, deleting: nat, history: seq<Issued>)

  predicate Start(db: Db, ks: OtpKeys) {
    ks.Distinct() && CountersHoldNumbers(db, ks) && !db.Live(ks.Code()) &&
    0 <= db.CountOf(ks.Misses()) < OTP_MAX_ATTEMPTS
  }

  /** The step from `before` to `after` cleared the counter of a live code that had
      met a miss. */
  predicate Resets(before: Db, after: Db, ks: OtpKeys, history: seq<Issued>) {
    before.Live(ks.Code()) && after.Live(ks.Code()) && before.Live(ks.Misses()) && !after.Live(ks.Misses()) &&
    history != [] && history[|history| - 1].misses > 0
  }

  /** A guess that would have to count on something other than a number gets the
      server's error and changes nothing. */
  function Step(r: Run, ks: OtpKeys, op: Op): Run {
    var i := |r.history| - 1;
    match op
    case SetCode(otp) =>
      Run(r.db.SetEx(ks.Code(), Text(otp), OTP_TTL_SECONDS), r.deleting + 1, r.history + [Issued(0, 0, 0, 0)])
    case DelMisses =>
      if r.deleting == 0 then r
      else
        var db := r.db.Del({ks.Misses()});
        Run(db, r.deleting - 1,
            if Resets(r.db, db, ks, r.history) then r.history[i := r.history[i].(byDel := r.history[i].byDel + 1)]
            else r.history)
    case Wait(ms) =>
      var db := r.db.Tick(ms);
      Run(db, r.deleting,
          if Resets(r.db, db, ks, r.history) then r.history[i := r.history[i].(byExpiry := r.history[i].byExpiry + 1)]
          else r.history)
    case Guess(otp) =>
      if !r.db.Countable(ks.Misses()) then r
      else Run(Guessed(r.db, ks, otp), r.deleting,
          if !r.db.Live(ks.Code()) || r.history == [] then r.history
          else if Matches(r.db, ks, otp) then r.history[i := r.history[i].(hits := r.history[i].hits + 1)]
          else r.history[i := r.history[i].(misses := r.history[i].misses + 1)])
  }

  /** What every step keeps of one code: misses are paid for by resets. */
  predicate Bounded(x: Issued) {
    x.misses <= 5 + 4 * x.Resets() && x.byExpiry <= 1 && x.hits <= 1
  }

  /** The misses a live code has met are covered by its resets and by what its counter
      holds now. A counter that would end before the code was left by an earlier one,
      so no reset has happened yet. */
  predicate Covered(x: Issued, db: Db, ks: OtpKeys)
    requires CountersHoldNumbers(db, ks) && db.Live(ks.Code())
  {
    x.hits == 0 && x.misses <= 4 * x.Resets() + db.CountOf(ks.Misses()) &&
    db.Expiry(ks.Code()).Some? && db.Expiry(ks.Code()).value <= db.now + OTP_TTL_SECONDS * SECOND_MS &&
    (EndsFirst(db, ks) ==> x.Resets() == 0)
  }

  predicate EndsFirst(db: Db, ks: OtpKeys) {
    db.Live(ks.Code()) && db.Live(ks.Misses()) && db.Expiry(ks.Code()).Some? && db.Expiry(ks.Misses()).Some? &&
    db.Expiry(ks.Misses()).value < db.Expiry(ks.Code()).value
  }

  predicate Invariant(r: Run, ks: OtpKeys) {
    CountersHoldNumbers(r.db, ks) && 0 <= r.db.CountOf(ks.Misses()) < OTP_MAX_ATTEMPTS &&
    (r.db.Live(ks.Code()) ==> r.history != [] && Covered(r.history[|r.history| - 1], r.db, ks)) &&
    forall i :: 0 <= i < |r.history| ==> Bounded(r.history[i])
  }

  lemma SetKeeps(r: Run, ks: OtpKeys, otp: string)
    requires ks.Distinct() && Invariant(r, ks)
    ensures Invariant(Step(r, ks, SetCode(otp)), ks)
  {
    ks.KeysDiffer();
  }

  lemma DelKeeps(r: Run, ks: OtpKeys)
    requires ks.Distinct() && Invariant(r, ks)
    ensures Invariant(Step(r, ks, DelMisses), ks)
  {
    ks.KeysDiffer();
  }

  lemma WaitKeeps(r: Run, ks: OtpKeys, ms: nat)
    requires Invariant(r, ks)
    ensures Invariant(Step(r, ks, Wait(ms)), ks)
  {
  }

  lemma GuessKeeps(r: Run, ks: OtpKeys, otp: string)
    requires ks.Distinct() && Invariant(r, ks)
    ensures Invariant(Step(r, ks, Guess(otp)), ks)
  {
    ks.KeysDiffer();
    GuessKeepsCounters(r.db, ks, otp);
  }

  lemma StepKeepsInvariant(r: Run, ks: OtpKeys, op: Op)
    requires ks.Distinct() && Invariant(r, ks)
    ensures Invariant(Step(r, ks, op), ks)
  {
    match op
    case SetCode(otp) => SetKeeps(r, ks, otp);
    case Guess(otp) => GuessKeeps(r, ks, otp);
    case DelMisses => DelKeeps(r, ks);
    case Wait(ms) => WaitKeeps(r, ks, ms);
  }

  /** The state after a whole run. */
  function Ran(db: Db, ks: OtpKeys, ops: seq<Op>): Run {
    if ops == [] then Run(db, 0, []) else Step(Ran(db, ks, ops[..|ops| - 1]), ks, ops[|ops| - 1])
  }

  lemma {:induction false} RanKeepsInvariant(db: Db, ks: OtpKeys, ops: seq<Op>)
    requires Start(db, ks)
    ensures Invariant(Ran(db, ks, ops), ks)
  {
    if ops != [] {
      RanKeepsInvariant(db, ks, ops[..|ops| - 1]);
      StepKeepsInvariant(Ran(db, ks, ops[..|ops| - 1]), ks, ops[|ops| - 1]);
    }
  }

  /** However the calls overlap: five misses, and four more for each reset; at most
      one reset of a code comes from a counter running out, because every counter
      started during the code's life outlives it. */
  lemma GuessesPerCode(db: Db, ks: OtpKeys, ops: seq<Op>)
    requires Start(db, ks)
    ensures var r := Ran(db, ks, ops);
            forall i :: 0 <= i < |r.history| ==>
              var x := r.history[i];
              x.misses <= 5 + 4 * (x.byDel + x.byExpiry) && x.byExpiry <= 1 && x.hits <= 1
  {
    RanKeepsInvariant(db, ks, ops);
    forall i | 0 <= i < |Ran(db, ks, ops).history|
      ensures Bounded(Ran(db, ks, ops).history[i])
    {
    }
  }

  // ------------------------------------------------- the misses of a whole run

  function TotalMisses(history: seq<Issued>): nat {
    if history == [] then 0 else TotalMisses(history[..|history| - 1]) + history[|history| - 1].misses
  }

  function Sets(ops: seq<Op>): nat {
    if ops == [] then 0 else Sets(ops[..|ops| - 1]) + if ops[|ops| - 1].SetCode? then 1 else 0
  }

  lemma {:induction false} OneEntryPerSet(db: Db, ks: OtpKeys, ops: seq<Op>)
    ensures |Ran(db, ks, ops).history| == Sets(ops)
  {
    if ops != [] {
      OneEntryPerSet(db, ks, ops[..|ops| - 1]);
    }
  }

  lemma TotalMissesUpdate(history: seq<Issued>, x: Issued)
    requires history != []
    ensures TotalMisses(history[|history| - 1 := x]) == TotalMisses(history) - history[|history| - 1].misses + x.misses
  {
    assert history[|history| - 1 := x][..|history| - 1] == history[..|history| - 1];
  }

  /** A counter that has counted a miss will be gone before the code it counts for: there
      is no code, or the code lasts longer. */
  predicate Outlived(db: Db, ks: OtpKeys)
    requires CountersHoldNumbers(db, ks)
  {
    db.CountOf(ks.Misses()) > 0 && (!db.Live(ks.Code()) || EndsFirst(db, ks))
  }

  /** The guesses the server is still good for: four before each DEL to come, five at a
      live code less those counted, and four more once an outlived counter is gone. */
  function Credit(db: Db, deleting: nat, ks: OtpKeys): int
    requires CountersHoldNumbers(db, ks)
  {
    4 * deleting + (if db.Live(ks.Code()) then 5 else 0) - db.CountOf(ks.Misses()) + if Outlived(db, ks) then 4 else 0
  }

  /** Every SET brings nine guesses, and every miss uses one up. */
  predicate Paid(r: Run, ks: OtpKeys, leftover: int)
    requires CountersHoldNumbers(r.db, ks)
  {
    TotalMisses(r.history) + Credit(r.db, r.deleting, ks) <= 9 * |r.history| + leftover
  }

  lemma SetPays(r: Run, ks: OtpKeys, otp: string, leftover: int)
    requires ks.Distinct() && Invariant(r, ks) && Paid(r, ks, leftover)
    ensures CountersHoldNumbers(Step(r, ks, SetCode(otp)).db, ks) && Paid(Step(r, ks, SetCode(otp)), ks, leftover)
  {
    ks.KeysDiffer();
    var s := Step(r, ks, SetCode(otp));
    assert s.history[..|s.history| - 1] == r.history;
  }

  lemma DelPays(r: Run, ks: OtpKeys, leftover: int)
    requires ks.Distinct() && Invariant(r, ks) && Paid(r, ks, leftover)
    ensures CountersHoldNumbers(Step(r, ks, DelMisses).db, ks) && Paid(Step(r, ks, DelMisses), ks, leftover)
  {
    hide TotalMisses, Bounded, OtpKeys.Distinct;
    ks.KeysDiffer();
    SameMisses(r, ks, DelMisses);
  }

  lemma WaitPays(r: Run, ks: OtpKeys, ms: nat, leftover: int)
    requires Invariant(r, ks) && Paid(r, ks, leftover)
    ensures CountersHoldNumbers(Step(r, ks, Wait(ms)).db, ks) && Paid(Step(r, ks, Wait(ms)), ks, leftover)
  {
    hide TotalMisses;
    SameMisses(r, ks, Wait(ms));
  }

  lemma SameMisses(r: Run, ks: OtpKeys, op: Op)
    requires op.DelMisses? || op.Wait?
    ensures TotalMisses(Step(r, ks, op).history) == TotalMisses(r.history)
    ensures |Step(r, ks, op).history| == |r.history|
  {
    if r.history != [] {
      var i := |r.history| - 1;
      var x := r.history[i];
      TotalMissesUpdate(r.history, x.(byDel := x.byDel + 1));
      TotalMissesUpdate(r.history, x.(byExpiry := x.byExpiry + 1));
    }
  }

  lemma GuessPays(r: Run, ks: OtpKeys, otp: string, leftover: int)
    requires ks.Distinct() && Invariant(r, ks) && Paid(r, ks, leftover)
    ensures CountersHoldNumbers(Step(r, ks, Guess(otp)).db, ks) && Paid(Step(r, ks, Guess(otp)), ks, leftover)
  {
    hide TotalMisses, Bounded, OtpKeys.Distinct;
    ks.KeysDiffer();
    if r.history != [] {
      var x := r.history[|r.history| - 1];
      TotalMissesUpdate(r.history, x.(hits := x.hits + 1));
      TotalMissesUpdate(r.history, x.(misses := x.misses + 1));
    }
  }

  lemma StepPays(r: Run, ks: OtpKeys, op: Op, leftover: int)
    requires ks.Distinct() && Invariant(r, ks) && Paid(r, ks, leftover)
    ensures CountersHoldNumbers(Step(r, ks, op).db, ks) && Paid(Step(r, ks, op), ks, leftover)
  {
    match op
    case SetCode(otp) => SetPays(r, ks, otp, leftover);
    case Guess(otp) => GuessPays(r, ks, otp, leftover);
    case DelMisses => DelPays(r, ks, leftover);
    case Wait(ms) => WaitPays(r, ks, ms, leftover);
  }

  /** What a counter left over from before the run adds: the guesses it will forget. */
  function Leftover(db: Db, ks: OtpKeys): nat
    requires Start(db, ks)
  {
    if db.CountOf(ks.Misses()) > 0 then 4 - db.CountOf(ks.Misses()) else 0
  }

  lemma {:induction false} RanPays(db: Db, ks: OtpKeys, ops: seq<Op>)
    requires Start(db, ks)
    ensures Invariant(Ran(db, ks, ops), ks) && Paid(Ran(db, ks, ops), ks, Leftover(db, ks))
  {
    RanKeepsInvariant(db, ks, ops);
    if ops != [] {
      var before := ops[..|ops| - 1];
      RanPays(db, ks, before);
      StepPays(Ran(db, ks, before), ks, ops[|ops| - 1], Leftover(db, ks));
    }
  }

  /** No interleaving lets a guesser try more than nine wrong codes per store, and three
      more over the whole run if a counter was left over from before it. */
  lemma WrongGuessesPerRun(db: Db, ks: OtpKeys, ops: seq<Op>)
    requires Start(db, ks)
    ensures TotalMisses(Ran(db, ks, ops).history) <= 9 * Sets(ops) + Leftover(db, ks)
    ensures Leftover(db, ks) <= 3 && (!db.Live(ks.Misses()) ==> Leftover(db, ks) == 0)
  {
    OneEntryPerSet(db, ks, ops);
    RanPays(db, ks, ops);
  }

  // ------------------------------------------------- the bound is reached

  lemma RanThen(db: Db, ks: OtpKeys, ops: seq<Op>, op: Op)
    ensures Ran(db, ks, ops + [op]) == Step(Ran(db, ks, ops), ks, op)
  {
    assert (ops + [op])[..|ops + [op]| - 1] == ops;
  }

  /** The last code is "right", live for good, its counter at `count`. */
  predicate Shape(r: Run, ks: OtpKeys, deleting: nat, misses: nat, byDel: nat, count: nat) {
    r.db.Get(ks.Code()) == Some(Text("right")) && r.db.Countable(ks.Misses()) &&
    r.db.CountOf(ks.Misses()) == count && (r.db.Live(ks.Misses()) <==> count > 0) && r.deleting == deleting &&
    r.history != [] && r.history[|r.history| - 1] == Issued(misses, 0, byDel, 0)
  }

  lemma WrongGuess(r: Run, ks: OtpKeys, deleting: nat, misses: nat, byDel: nat, count: nat)
    requires ks.Distinct() && Shape(r, ks, deleting, misses, byDel, count) && count < 4
    ensures Shape(Step(r, ks, Guess("wrong")), ks, deleting, misses + 1, byDel, count + 1)
  {
    ks.KeysDiffer();
  }

  lemma LateDelete(r: Run, ks: OtpKeys, deleting: nat, misses: nat, byDel: nat, count: nat)
    requires ks.Distinct() && Shape(r, ks, deleting, misses, byDel, count) && deleting > 0 && count > 0 && misses > 0
    ensures Shape(Step(r, ks, DelMisses), ks, deleting - 1, misses, byDel + 1, 0)
  {
    ks.KeysDiffer();
  }

  lemma FourWrongGuesses(db: Db, ks: OtpKeys, ops: seq<Op>, deleting: nat, misses: nat, byDel: nat) returns (more: seq<Op>)
    requires Start(db, ks) && Shape(Ran(db, ks, ops), ks, deleting, misses, byDel, 0)
    ensures Shape(Ran(db, ks, more), ks, deleting, misses + 4, byDel, 4)
  {
    more := ops;
    for i := 0 to 4
      invariant Shape(Ran(db, ks, more), ks, deleting, misses + i, byDel, i)
    {
      RanThen(db, ks, more, Guess("wrong"));
      WrongGuess(Ran(db, ks, more), ks, deleting, misses + i, byDel, i);
      more := more + [Guess("wrong")];
    }
  }

  lemma SetOver(r: Run, ks: OtpKeys)
    requires ks.Distinct() && !r.db.Live(ks.Misses())
    ensures Shape(Step(r, ks, SetCode("right")), ks, r.deleting + 1, 0, 0, 0)
  {
    ks.KeysDiffer();
  }

  /** Any number of stores whose DEL is still to come. */
  lemma {:induction false} Overlapping(db: Db, ks: OtpKeys, n: nat) returns (ops: seq<Op>)
    requires Start(db, ks) && !db.Live(ks.Misses())
    ensures Shape(Ran(db, ks, ops), ks, n + 1, 0, 0, 0)
  {
    hide Step, OtpKeys.Distinct;
    if n == 0 {
      ops := [];
    } else {
      ops := Overlapping(db, ks, n - 1);
    }
    RanThen(db, ks, ops, SetCode("right"));
    SetOver(Ran(db, ks, ops), ks);
    ops := ops + [SetCode("right")];
  }

  lemma {:induction false} ResetRounds(db: Db, ks: OtpKeys, n: nat, r: nat) returns (ops: seq<Op>)
    requires Start(db, ks) && !db.Live(ks.Misses()) && r <= n
    ensures Shape(Ran(db, ks, ops), ks, n + 1 - r, 4 * r, r, 0)
  {
    if r == 0 {
      ops := Overlapping(db, ks, n);
    } else {
      ops := ResetRounds(db, ks, n, r - 1);
      ops := FourWrongGuesses(db, ks, ops, n + 2 - r, 4 * (r - 1), r - 1);
      RanThen(db, ks, ops, DelMisses);
      LateDelete(Ran(db, ks, ops), ks, n + 2 - r, 4 * r, r - 1, 4);
      ops := ops + [DelMisses];
    }
  }

  /** The bound is exact: for every r there is a run in which one code has its counter
      reset r times and meets 5 + 4r wrong guesses. */
  lemma BoundIsReached(ks: OtpKeys, start: nat, r: nat) returns (ops: seq<Op>)
    requires ks.Distinct()
    ensures Start(Db(map[], start), ks)
    ensures var history := Ran(Db(map[], start), ks, ops).history;
            history != [] && history[|history| - 1].misses == 5 + 4 * r &&
            history[|history| - 1].Resets() == r
  {
    var db := Db(map[], start);
    ops := ResetRounds(db, ks, r, r);
    ops := FourWrongGuesses(db, ks, ops, 1, 4 * r, r);
    RanThen(db, ks, ops, Guess("wrong"));
    ops := ops + [Guess("wrong")];
  }

  // ------------------------------------------------- nine per store are reached

  /** A code "right" is live, its counter at `count`, and the run has met `total` misses. */
  predicate Guessing(r: Run, ks: OtpKeys, deleting: nat, count: nat, total: nat) {
    r.db.Get(ks.Code()) == Some(Text("right")) && r.db.Countable(ks.Misses()) &&
    r.db.CountOf(ks.Misses()) == count && (r.db.Live(ks.Misses()) <==> count > 0) && r.deleting == deleting &&
    r.history != [] && TotalMisses(r.history) == total
  }

  /** No code, no counter and no DEL to come. */
  predicate Idle(r: Run, ks: OtpKeys, total: nat) {
    !r.db.Live(ks.Code()) && !r.db.Live(ks.Misses()) && r.deleting == 0 && TotalMisses(r.history) == total
  }

  lemma MissAgain(r: Run, ks: OtpKeys, deleting: nat, count: nat, total: nat)
    requires ks.Distinct() && Guessing(r, ks, deleting, count, total) && count < 4
    ensures Guessing(Step(r, ks, Guess("wrong")), ks, deleting, count + 1, total + 1)
  {
    ks.KeysDiffer();
    var x := r.history[|r.history| - 1];
    TotalMissesUpdate(r.history, x.(misses := x.misses + 1));
  }

  lemma LastMiss(r: Run, ks: OtpKeys, total: nat)
    requires ks.Distinct() && Guessing(r, ks, 0, 4, total)
    ensures Idle(Step(r, ks, Guess("wrong")), ks, total + 1)
  {
    ks.KeysDiffer();
    var x := r.history[|r.history| - 1];
    TotalMissesUpdate(r.history, x.(misses := x.misses + 1));
  }

  lemma ForgetMisses(r: Run, ks: OtpKeys, count: nat, total: nat)
    requires ks.Distinct() && Guessing(r, ks, 1, count, total)
    ensures Guessing(Step(r, ks, DelMisses), ks, 0, 0, total)
  {
    ks.KeysDiffer();
    SameMisses(r, ks, DelMisses);
  }

  lemma SetAgain(r: Run, ks: OtpKeys, total: nat)
    requires ks.Distinct() && Idle(r, ks, total)
    ensures Guessing(Step(r, ks, SetCode("right")), ks, 1, 0, total)
  {
    ks.KeysDiffer();
    var s := Step(r, ks, SetCode("right"));
    assert s.history[..|r.history|] == r.history;
  }

  lemma SetsThen(ops: seq<Op>, op: Op)
    ensures Sets(ops + [op]) == Sets(ops) + if op.SetCode? then 1 else 0
  {
    assert (ops + [op])[..|ops|] == ops;
  }

  lemma Misses(db: Db, ks: OtpKeys, ops: seq<Op>, deleting: nat, count: nat, total: nat, n: nat) returns (more: seq<Op>)
    requires ks.Distinct() && Guessing(Ran(db, ks, ops), ks, deleting, count, total) && count + n <= 4
    ensures Guessing(Ran(db, ks, more), ks, deleting, count + n, total + n) && Sets(more) == Sets(ops)
  {
    more := ops;
    for i := 0 to n
      invariant Guessing(Ran(db, ks, more), ks, deleting, count + i, total + i) && Sets(more) == Sets(ops)
    {
      RanThen(db, ks, more, Guess("wrong"));
      SetsThen(more, Guess("wrong"));
      MissAgain(Ran(db, ks, more), ks, deleting, count + i, total + i);
      more := more + [Guess("wrong")];
    }
  }

  /** Four misses, the late DEL, and five more. */
  lemma NineMisses(db: Db, ks: OtpKeys, ops: seq<Op>, total: nat) returns (more: seq<Op>)
    requires ks.Distinct() && Guessing(Ran(db, ks, ops), ks, 1, 0, total)
    ensures Idle(Ran(db, ks, more), ks, total + 9) && Sets(more) == Sets(ops)
  {
    hide Guessing, Idle, Step, TotalMisses;
    more := Misses(db, ks, ops, 1, 0, total, 4);
    RanThen(db, ks, more, DelMisses);
    SetsThen(more, DelMisses);
    ForgetMisses(Ran(db, ks, more), ks, 4, total + 4);
    more := Misses(db, ks, more + [DelMisses], 0, 0, total + 4, 4);
    RanThen(db, ks, more, Guess("wrong"));
    SetsThen(more, Guess("wrong"));
    LastMiss(Ran(db, ks, more), ks, total + 8);
    more := more + [Guess("wrong")];
  }

  /** A server with a counter left over that ends in a millisecond, or with none. */
  function LeftWith(ks: OtpKeys, start: nat, count: nat): Db {
    Db(if count == 0 then map[] else map[ks.Misses() := Entry(Count(count), Some(start + 1))], start)
  }

  /** It is `start` still, and the counter left over is about to end. */
  predicate Ending(r: Run, ks: OtpKeys, start: nat, count: nat, total: nat) {
    Guessing(r, ks, 1, count, total) && count > 0 && r.db.now == start &&
    r.db.Expiry(ks.Code()) == Some(start + 300_000) && r.db.Expiry(ks.Misses()) == Some(start + 1)
  }

  lemma FirstSet(ks: OtpKeys, start: nat, count: nat)
    requires ks.Distinct() && count > 0
    ensures Ending(Ran(LeftWith(ks, start, count), ks, [SetCode("right")]), ks, start, count, 0)
    ensures Sets([SetCode("right")]) == 1
  {
    ks.KeysDiffer();
    var db := LeftWith(ks, start, count);
    RanThen(db, ks, [], SetCode("right"));
    SetsThen([], SetCode("right"));
    assert [] + [SetCode("right")] == [SetCode("right")];
    assert Ran(db, ks, [SetCode("right")]).history[..0] == [];
  }

  lemma MissWhileEnding(r: Run, ks: OtpKeys, start: nat, count: nat, total: nat)
    requires ks.Distinct() && Ending(r, ks, start, count, total) && count < 4
    ensures Ending(Step(r, ks, Guess("wrong")), ks, start, count + 1, total + 1)
  {
    hide TotalMisses, OtpKeys.Distinct;
    ks.KeysDiffer();
    MissAgain(r, ks, 1, count, total);
  }

  lemma Ended(r: Run, ks: OtpKeys, start: nat, count: nat, total: nat)
    requires Ending(r, ks, start, count, total)
    ensures Guessing(Step(r, ks, Wait(1)), ks, 1, 0, total)
  {
    hide TotalMisses;
    SameMisses(r, ks, Wait(1));
  }

  /** The counter is brought to four and runs out. */
  lemma ForgetLeftover(ks: OtpKeys, start: nat, count: nat) returns (ops: seq<Op>)
    requires ks.Distinct() && 1 <= count <= 4
    ensures Guessing(Ran(LeftWith(ks, start, count), ks, ops), ks, 1, 0, 4 - count) && Sets(ops) == 1
  {
    hide Ending, Step, Guessing, Ran, OtpKeys.Distinct;
    var db := LeftWith(ks, start, count);
    FirstSet(ks, start, count);
    ops := [SetCode("right")];
    for i := 0 to 4 - count
      invariant Ending(Ran(db, ks, ops), ks, start, count + i, i) && Sets(ops) == 1
    {
      RanThen(db, ks, ops, Guess("wrong"));
      SetsThen(ops, Guess("wrong"));
      MissWhileEnding(Ran(db, ks, ops), ks, start, count + i, i);
      ops := ops + [Guess("wrong")];
    }
    RanThen(db, ks, ops, Wait(1));
    SetsThen(ops, Wait(1));
    Ended(Ran(db, ks, ops), ks, start, 4, 4 - count);
    ops := ops + [Wait(1)];
  }

  /** The bound is exact: for any number of stores, and whatever counter was left over,
      there is a run that meets it. */
  lemma NinePerStoreAreReached(ks: OtpKeys, start: nat, count: nat, n: nat) returns (ops: seq<Op>)
    requires ks.Distinct() && count <= 4 && (n >= 1 || count == 0)
    ensures var db := LeftWith(ks, start, count);
            Start(db, ks) && Sets(ops) == n && TotalMisses(Ran(db, ks, ops).history) == 9 * n + Leftover(db, ks)
  {
    var db := LeftWith(ks, start, count);
    ops := [];
    if count > 0 {
      ops := ForgetLeftover(ks, start, count);
      ops := NineMisses(db, ks, ops, 4 - count);
    }
    var done := Sets(ops);
    for i := done to n
      invariant Idle(Ran(db, ks, ops), ks, 9 * i + Leftover(db, ks)) && Sets(ops) == i
    {
      RanThen(db, ks, ops, SetCode("right"));
      SetsThen(ops, SetCode("right"));
      SetAgain(Ran(db, ks, ops), ks, 9 * i + Leftover(db, ks));
      ops := NineMisses(db, ks, ops + [SetCode("right")], 9 * i + Leftover(db, ks));
    }
  }

  // ------------------------------------------------- whole calls are a special case

  /** The same run with every store written out as its two commands. */
  function Split(ops: seq<Atomic.Op>): seq<Op> {
    if ops == [] then []
    else
      Split(ops[..|ops| - 1]) +
      match ops[|ops| - 1]
      case Store(otp) => [SetCode(otp), DelMisses]
      case Guess(otp) => [Guess(otp)]
      case Wait(ms) => [Wait(ms)]
  }

  /** The same server, and the same codes with the same guesses, none ever reset. */
  predicate SameRun(r: Run, whole: Atomic.Run) {
    r.db == whole.db && r.deleting == 0 && |r.history| == |whole.history| &&
    forall i :: 0 <= i < |r.history| ==> r.history[i] == Issued(whole.history[i].misses, whole.history[i].hits, 0, 0)
  }

  lemma SameStore(r: Run, whole: Atomic.Run, ks: OtpKeys, otp: string)
    requires ks.Distinct() && SameRun(r, whole)
    ensures SameRun(Step(Step(r, ks, SetCode(otp)), ks, DelMisses), Atomic.Step(whole, ks, Atomic.Store(otp)))
  {
    ks.KeysDiffer();
  }

  lemma SameWait(r: Run, whole: Atomic.Run, ks: OtpKeys, ms: nat)
    requires SameRun(r, whole) && Atomic.Invariant(whole, ks)
    ensures SameRun(Step(r, ks, Wait(ms)), Atomic.Step(whole, ks, Atomic.Wait(ms)))
  {
    assert !Resets(r.db, r.db.Tick(ms), ks, r.history);
  }

  lemma SameGuess(r: Run, whole: Atomic.Run, ks: OtpKeys, otp: string)
    requires SameRun(r, whole)
    ensures SameRun(Step(r, ks, Guess(otp)), Atomic.Step(whole, ks, Atomic.Guess(otp)))
  {
  }

  /** A run of whole calls is the interleaved run in which each DEL follows its SET,
      and in it no counter is ever reset: the bound is back to five. */
  lemma {:induction false} WholeCallsNeverReset(db: Db, ks: OtpKeys, ops: seq<Atomic.Op>)
    requires Start(db, ks)
    ensures SameRun(Ran(db, ks, Split(ops)), Atomic.Ran(db, ks, ops))
  {
    if ops != [] {
      var before, op := ops[..|ops| - 1], ops[|ops| - 1];
      WholeCallsNeverReset(db, ks, before);
      var r, whole := Ran(db, ks, Split(before)), Atomic.Ran(db, ks, before);
      match op
      case Store(otp) =>
        RanThen(db, ks, Split(before), SetCode(otp));
        RanThen(db, ks, Split(before) + [SetCode(otp)], DelMisses);
        assert Split(ops) == Split(before) + [SetCode(otp)] + [DelMisses];
        SameStore(r, whole, ks, otp);
      case Guess(otp) =>
        RanThen(db, ks, Split(before), Guess(otp));
        SameGuess(r, whole, ks, otp);
      case Wait(ms) =>
        RanThen(db, ks, Split(before), Wait(ms));
        Atomic.RanKeepsInvariant(db, ks, before);
        SameWait(r, whole, ks, ms);
    }
  }
}
