/** Many identifiers share one server. However their calls are mixed, each meets the code
    and the counter it would meet alone, so what OtpRuns proves of one holds of all. */
module OtpIdentifiers {
  import opened RedisModel
  import opened OtpStore
  import Alone = OtpRuns

  /** A call made for one identifier, or one more on a counter of another kind: a day's, or
      that of a cap on sends. */
  datatype Op = Call(who: OtpKeys, op: Alone.Op) | Count(key: Key, seconds: nat)

  predicate Apart(ks: OtpKeys, k: Key) { k != ks.Code() && k != ks.Misses() }

  /** The call is for `ks`, or for keys of its own. */
  predicate Separate(ks: OtpKeys, o: Op) {
    match o
    case Call(who, op) => who == ks || (Apart(ks, who.Code()) && Apart(ks, who.Misses()))
    case Count(key, _) => Apart(ks, key)
  }

  function Step(db: Db, o: Op): Db {
    match o
    case Count(key, seconds) => if db.Countable(key) then Counted(db, key, seconds) else db
    case Call(who, op) =>
      match op
      case Wait(ms) => db.Tick(ms)
      case Store(otp) => Stored(db, who, otp)
      case Guess(otp) => if db.Countable(who.Misses()) then Guessed(db, who, otp) else db
  }

  function Ran(db: Db, ops: seq<Op>): Db {
    if ops == [] then db else Step(Ran(db, ops[..|ops| - 1]), ops[|ops| - 1])
  }

  /** The calls made for one identifier, and the time that passes. */
  function Own(ks: OtpKeys, ops: seq<Op>): seq<Alone.Op> {
    if ops == [] then []
    else
      var o := ops[|ops| - 1];
      Own(ks, ops[..|ops| - 1]) + if o.Call? && (o.who == ks || o.op.Wait?) then [o.op] else []
  }

  predicate Agree(a: Db, b: Db, ks: OtpKeys) {
    a.now == b.now && SameEntry(a, b, ks.Code()) && SameEntry(a, b, ks.Misses())
  }

  lemma OtherStep(db: Db, ks: OtpKeys, o: Op)
    requires Separate(ks, o) && !(o.Call? && (o.who == ks || o.op.Wait?))
    ensures Agree(Step(db, o), db, ks)
  {
    match o
    case Count(key, seconds) =>
      if db.Countable(key) {
        CountTouches(db, key, seconds, ks.Code());
        CountTouches(db, key, seconds, ks.Misses());
      }
    case Call(who, Store(otp)) =>
      StoreTouches(db, who, otp, ks.Code());
      StoreTouches(db, who, otp, ks.Misses());
    case Call(who, Guess(otp)) =>
      if db.Countable(who.Misses()) {
        GuessTouches(db, who, otp, ks.Code());
        GuessTouches(db, who, otp, ks.Misses());
      }
  }

  lemma OwnStep(db: Db, r: Alone.Run, ks: OtpKeys, o: Op)
    requires Agree(db, r.db, ks) && o.Call? && (o.who == ks || o.op.Wait?)
    ensures Agree(Step(db, o), Alone.Step(r, ks, o.op).db, ks)
  {
  }

  lemma AloneThen(db: Db, ks: OtpKeys, ops: seq<Alone.Op>, op: Alone.Op)
    ensures Alone.Ran(db, ks, ops + [op]) == Alone.Step(Alone.Ran(db, ks, ops), ks, op)
  {
    assert (ops + [op])[..|ops|] == ops;
  }

  /** However the calls of any number of identifiers are mixed, an identifier's code and
      miss counter are what its own calls alone would have left. */
  lemma {:induction false} AsIfAlone(db: Db, ks: OtpKeys, ops: seq<Op>)
    requires forall o :: o in ops ==> Separate(ks, o)
    ensures Agree(Ran(db, ops), Alone.Ran(db, ks, Own(ks, ops)).db, ks)
  {
    hide Step, Separate;
    if ops != [] {
      var before, o := ops[..|ops| - 1], ops[|ops| - 1];
      AsIfAlone(db, ks, before);
      if o.Call? && (o.who == ks || o.op.Wait?) {
        OwnStep(Ran(db, before), Alone.Ran(db, ks, Own(ks, before)), ks, o);
        AloneThen(db, ks, Own(ks, before), o.op);
      } else {
        assert Own(ks, ops) == Own(ks, before);
        OtherStep(Ran(db, before), ks, o);
      }
    }
  }

  /** So a guess for an identifier succeeds exactly when it is the last code stored for that
      identifier, under five minutes old, unused, and met by fewer than five wrong guesses
      for it, whatever is stored and guessed for the others. */
  lemma GuessSucceedsIff(db: Db, ks: OtpKeys, ops: seq<Op>, guess: string)
    requires Alone.Start(db, ks) && forall o :: o in ops ==> Separate(ks, o)
    ensures var history := Alone.Ran(db, ks, Own(ks, ops)).history;
            Matches(Ran(db, ops), ks, guess) <==>
              history != [] &&
              var last := history[|history| - 1];
              guess == last.otp && last.hits == 0 && last.misses < 5 && Ran(db, ops).now < last.at + 300_000
  {
    AsIfAlone(db, ks, ops);
    Alone.GuessSucceedsIff(db, ks, Own(ks, ops), guess);
  }

  function Elapsed(ops: seq<Op>): nat {
    if ops == [] then 0
    else
      var o := ops[|ops| - 1];
      Elapsed(ops[..|ops| - 1]) + if o.Call? && o.op.Wait? then o.op.ms else 0
  }

  /** Nothing done for the others changes the answer to a guess, time aside. */
  lemma {:induction false} OthersChangeNothing(db: Db, ks: OtpKeys, ops: seq<Op>, guess: string)
    requires forall o :: o in ops ==> Separate(ks, o) && (o.Call? ==> o.who != ks)
    ensures Agree(Ran(db, ops), db.Tick(Elapsed(ops)), ks)
    ensures Matches(Ran(db, ops), ks, guess) <==> Matches(db.Tick(Elapsed(ops)), ks, guess)
  {
    if ops != [] {
      var before, o := ops[..|ops| - 1], ops[|ops| - 1];
      OthersChangeNothing(db, ks, before, guess);
      if !(o.Call? && o.op.Wait?) {
        OtherStep(Ran(db, before), ks, o);
      }
    }
  }
}
