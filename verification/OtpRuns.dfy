/** What the code store guarantees over whole runs, when every call runs to its end
    before the next one starts. A run is any list of stores, guesses and clock
    ticks for one identifier; beside the server it keeps the history of the codes
    that were stored. */
module OtpRuns {
  import opened Basics
  import opened RedisModel
  import opened OtpStore

  datatype Op = Store(otp: string) | Guess(otp: string) | Wait(ms: nat)

  /** A code that was stored, when, and how many wrong and right guesses met it
      while it was live. */
  datatype Issued = Issued(otp: string, at: nat, misses: nat, hits: nat)
  {
    function Expires(): nat { at + OTP_TTL_SECONDS * SECOND_MS }

    /** The code as its guessers should find it: neither spent nor burnt. */
    predicate Open() { hits == 0 && misses < OTP_MAX_ATTEMPTS }
  }

  datatype Run = Run(db: Db, history: seq<Issued>)

  /** No code is live when the run begins, and the counters are counters; anything
      else may be left over from before. */
  predicate Start(db: Db, ks: OtpKeys) {
    ks.Distinct() && CountersHoldNumbers(db, ks) && !db.Live(ks.Code())
  }

  /** A guess that would have to count on something other than a number gets the
      server's error and changes nothing. */
  function Step(r: Run, ks: OtpKeys, op: Op): Run {
    match op
    case Store(otp) => Run(Stored(r.db, ks, otp), r.history + [Issued(otp, r.db.now, 0, 0)])
    case Wait(ms) => r.(db := r.db.Tick(ms))
    case Guess(otp) =>
      if !r.db.Countable(ks.Misses()) then r else
      var met := r.db.Live(ks.Code()) && r.history != [];
      Run(Guessed(r.db, ks, otp), if met then Met(r.history, Matches(r.db, ks, otp)) else r.history)
  }

  /** The last stored code meets one more guess. */
  function Met(history: seq<Issued>, hit: bool): seq<Issued>
    requires history != []
  {
    var i := |history| - 1;
    history[i := if hit then history[i].(hits := history[i].hits + 1) else history[i].(misses := history[i].misses + 1)]
  }

  predicate Current(r: Run) {
    r.history != [] && r.history[|r.history| - 1].Open() && r.db.now < r.history[|r.history| - 1].Expires()
  }

  /** A live code is the last one stored, with its own expiry, and its counter says
      exactly how many misses it has met and outlives it. */
  predicate CounterGuards(r: Run, ks: OtpKeys) {
    r.db.Live(ks.Code()) ==>
      r.history != [] &&
      var last := r.history[|r.history| - 1];
      r.db.store[ks.Code()] == Entry(Text(last.otp), Some(last.Expires())) &&
      r.db.Countable(ks.Misses()) && last.misses == r.db.CountOf(ks.Misses()) &&
      (r.db.Live(ks.Misses()) ==>
         r.db.Expiry(ks.Misses()).Some? && last.Expires() <= r.db.Expiry(ks.Misses()).value)
  }

  predicate Within(history: seq<Issued>) {
    forall i :: 0 <= i < |history| ==>
      history[i].misses <= OTP_MAX_ATTEMPTS && history[i].hits <= 1 &&
      (history[i].misses == OTP_MAX_ATTEMPTS ==> history[i].hits == 0)
  }

  predicate Invariant(r: Run, ks: OtpKeys) {
    CountersHoldNumbers(r.db, ks) && CounterGuards(r, ks) && Within(r.history) &&
    (r.db.Live(ks.Code()) <==> Current(r)) &&
    forall i :: 0 <= i < |r.history| ==> r.history[i].at <= r.db.now
  }

  lemma StepKeepsInvariant(r: Run, ks: OtpKeys, op: Op)
    requires ks.Distinct() && Invariant(r, ks)
    ensures Invariant(Step(r, ks, op), ks)
  {
    ks.KeysDiffer();
    if op.Guess? {
      GuessKeepsCounters(r.db, ks, op.otp);
    }
  }

  /** The state after a whole run. */
  function Ran(db: Db, ks: OtpKeys, ops: seq<Op>): Run {
    if ops == [] then Run(db, []) else Step(Ran(db, ks, ops[..|ops| - 1]), ks, ops[|ops| - 1])
  }

  lemma {:induction false} RanKeepsInvariant(db: Db, ks: OtpKeys, ops: seq<Op>)
    requires Start(db, ks)
    ensures Invariant(Ran(db, ks, ops), ks)
  {
    if ops != [] {
      RanKeepsInvariant(db, ks, ops[..|ops| - 1]);
      StepKeepsInvariant(Ran(db, ks, ops[..|ops| - 1]), ks, ops[|ops| - 1]);
    }
  }

  /** A live code meets no more than five wrong guesses and at most one right one;
      after the fifth miss no guess succeeds. The counter never expires first. */
  lemma GuessesPerCode(db: Db, ks: OtpKeys, ops: seq<Op>)
    requires Start(db, ks)
    ensures var r := Ran(db, ks, ops);
            && (forall i :: 0 <= i < |r.history| ==>
                  && r.history[i].misses <= OTP_MAX_ATTEMPTS
                  && r.history[i].hits <= 1
                  && (r.history[i].misses == OTP_MAX_ATTEMPTS ==> r.history[i].hits == 0))
            && (r.db.Live(ks.Code()) && r.db.Live(ks.Misses()) ==>
                  r.db.Expiry(ks.Code()).Some? && r.db.Expiry(ks.Misses()).Some? &&
                  r.db.Expiry(ks.Code()).value <= r.db.Expiry(ks.Misses()).value)
  {
    RanKeepsInvariant(db, ks, ops);
  }

  /** A guess succeeds exactly when it is the last code stored, stored less than five
      minutes ago, not yet used, and met by fewer than five wrong guesses since. */
  lemma GuessSucceedsIff(db: Db, ks: OtpKeys, ops: seq<Op>, guess: string)
    requires Start(db, ks)
    ensures var r := Ran(db, ks, ops);
            Matches(r.db, ks, guess) <==>
              r.history != [] &&
              var last := r.history[|r.history| - 1];
              guess == last.otp && last.hits == 0 && last.misses < 5 && r.db.now < last.at + 300_000
  {
    RanKeepsInvariant(db, ks, ops);
  }

  function TotalMisses(history: seq<Issued>): nat {
    if history == [] then 0 else TotalMisses(history[..|history| - 1]) + history[|history| - 1].misses
  }

  function Stores(ops: seq<Op>): nat {
    if ops == [] then 0 else Stores(ops[..|ops| - 1]) + if ops[|ops| - 1].Store? then 1 else 0
  }

  lemma {:induction false} TotalWithin(history: seq<Issued>)
    requires Within(history)
    ensures TotalMisses(history) <= OTP_MAX_ATTEMPTS * |history|
  {
    if history != [] {
      TotalWithin(history[..|history| - 1]);
    }
  }

  lemma {:induction false} OneEntryPerStore(db: Db, ks: OtpKeys, ops: seq<Op>)
    ensures |Ran(db, ks, ops).history| == Stores(ops)
  {
    if ops != [] {
      OneEntryPerStore(db, ks, ops[..|ops| - 1]);
    }
  }

  /** Over a whole run, however its stores, guesses and ticks are ordered. */
  lemma WrongGuessesPerRun(db: Db, ks: OtpKeys, ops: seq<Op>)
    requires Start(db, ks)
    ensures TotalMisses(Ran(db, ks, ops).history) <= 5 * Stores(ops)
  {
    OneEntryPerStore(db, ks, ops);
    RanKeepsInvariant(db, ks, ops);
    TotalWithin(Ran(db, ks, ops).history);
  }
}
