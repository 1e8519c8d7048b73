/** src/modules/auth/otp-store.ts: the one-time-code primitives every login flow
    shares. Each exported function is a method over the server; beside it stands the
    function giving the server's next state, which the theorems about whole runs
    (OtpRuns, OtpLockout, SendCap) are stated on. */
module OtpStore {
  import opened Basics
  import opened RedisModel

  const OTP_TTL_SECONDS: nat := 300
  const OTP_MAX_ATTEMPTS: nat := 5
  const OTP_MAX_SENDS: nat := 5
  const OTP_SEND_WINDOW_SECONDS: nat := 15 * 60
  const OTP_DAILY_MISS_LIMIT: nat := 20
  const OTP_DAILY_MISS_WINDOW_SECONDS: nat := 24 * 60 * 60

  /** The code of one identifier and its miss counter. Callers pass keys that differ
      in their prefix; the counter for the day is named after the miss counter. */
  datatype OtpKeys = OtpKeys(otpKey: string, attemptsKey: string)
  {
    predicate Distinct() {
      otpKey != attemptsKey && otpKey != attemptsKey + ":day"
    }

    function Code(): Key { Named(otpKey) }
    function Misses(): Key { Named(attemptsKey) }
    function Day(): Key { Named(attemptsKey + ":day") }

    lemma KeysDiffer()
      requires Distinct()
      ensures Code() != Misses() && Code() != Day() && Misses() != Day()
    {
      assert |attemptsKey + ":day"| == |attemptsKey| + 4;
    }
  }

  /** Both counters hold numbers whenever they hold anything. */
  predicate CountersHoldNumbers(db: Db, ks: OtpKeys) {
    (ks.Misses() in db.store ==> db.store[ks.Misses()].value.Count?) &&
    (ks.Day() in db.store ==> db.store[ks.Day()].value.Count?)
  }

  datatype HttpResult<+T> = Answer(value: T) | TooManyRequests

  // ---------------------------------------------------------------- codes

  function Stored(db: Db, ks: OtpKeys, otp: string): Db {
    db.SetEx(ks.Code(), Text(otp), OTP_TTL_SECONDS).Del({ks.Misses()})
  }

  method StoreOtp(redis: Redis, ks: OtpKeys, otp: string)
    requires ks.Distinct()
    modifies redis
    ensures redis.State() == Stored(old(redis.State()), ks, otp)
    ensures redis.State().Get(ks.Code()) == Some(Text(otp))
    ensures redis.State().Expiry(ks.Code()) == Some(old(redis.now) + 300_000)
    ensures ks.Misses() !in redis.State().store
    ensures forall k :: k != ks.Code() && k != ks.Misses() ==> SameEntry(redis.State(), old(redis.State()), k)
  {
    redis.SetEx(ks.Code(), Text(otp), OTP_TTL_SECONDS);
    redis.Del({ks.Misses()});
  }

  lemma CountedCounter(db: Db, k: Key, seconds: nat)
    requires db.Countable(k) && seconds > 0
    requires db.Live(k) ==> db.CountOf(k) >= 1
    ensures var after := Counted(db, k, seconds);
            after.now == db.now && after.Live(k) && after.Countable(k) && after.CountOf(k) == db.CountOf(k) + 1 &&
            after.Expiry(k) == if db.Live(k) then db.Expiry(k) else Some(db.now + seconds * SECOND_MS)
  {
  }

  /** A live code equal to the guess. */
  predicate Matches(db: Db, ks: OtpKeys, guess: string) {
    db.Get(ks.Code()) == Some(Text(guess))
  }

  function Verified(db: Db, ks: OtpKeys, guess: string, limit: int, ttl: nat): Db
    requires db.Countable(ks.Misses())
  {
    if !db.Live(ks.Code()) then db
    else if Matches(db, ks, guess) then db.Del({ks.Code(), ks.Misses()})
    else
      var counted := Counted(db, ks.Misses(), ttl);
      if db.CountOf(ks.Misses()) + 1 >= limit then counted.Del({ks.Code(), ks.Misses()}) else counted
  }

  function Guessed(db: Db, ks: OtpKeys, guess: string): Db
    requires db.Countable(ks.Misses())
  {
    Verified(db, ks, guess, OTP_MAX_ATTEMPTS, OTP_TTL_SECONDS)
  }

  /** What a miss makes of the code and its counter, of which it is the n-th. */
  predicate Missed(before: Db, after: Db, ks: OtpKeys, n: int, limit: int, ttl: nat) {
    if n >= limit then
      ks.Code() !in after.store && ks.Misses() !in after.store
    else
      SameEntry(after, before, ks.Code()) && ks.Misses() in after.store &&
      after.store[ks.Misses()] ==
        Entry(Count(n), if n == 1 then Some(before.now + ttl * 1000)
                        else if before.Live(ks.Misses()) then before.Expiry(ks.Misses()) else None)
  }

  /** The Lua script, which the server runs as one step. Without a live code nothing
      happens, a match ends the code and its counter, a miss is counted; no other key is
      touched. */
  method VerifyAndDeleteOtp(redis: Redis, ks: OtpKeys, guess: string, limit: int, ttl: nat) returns (reply: int)
    requires ks.Distinct() && redis.State().Countable(ks.Misses())
    modifies redis
    ensures reply == (if Matches(old(redis.State()), ks, guess) then 1 else 0)
    ensures redis.State() == Verified(old(redis.State()), ks, guess, limit, ttl)
    ensures redis.now == old(redis.now)
    ensures forall k :: k != ks.Code() && k != ks.Misses() ==> SameEntry(redis.State(), old(redis.State()), k)
    ensures !old(redis.State()).Live(ks.Code()) ==> redis.State() == old(redis.State())
    ensures reply == 1 ==> ks.Code() !in redis.store && ks.Misses() !in redis.store
    ensures reply == 0 && old(redis.State()).Live(ks.Code()) ==>
              Missed(old(redis.State()), redis.State(), ks, old(redis.State()).CountOf(ks.Misses()) + 1, limit, ttl)
  {
    var v := redis.Get(ks.Code());
    if v == None {
      return 0;
    }
    if v == Some(Text(guess)) {
      redis.Del({ks.Code(), ks.Misses()});
      return 1;
    }
    var misses := redis.Incr(ks.Misses());
    if misses == 1 {
      redis.Expire(ks.Misses(), ttl);
    }
    if misses >= limit {
      redis.Del({ks.Code(), ks.Misses()});
    }
    return 0;
  }

  method ConsumeOtp(redis: Redis, ks: OtpKeys, otp: string) returns (matched: bool)
    requires ks.Distinct() && redis.State().Countable(ks.Misses())
    modifies redis
    ensures matched == Matches(old(redis.State()), ks, otp)
    ensures redis.State() == Guessed(old(redis.State()), ks, otp)
    ensures forall k :: k != ks.Code() && k != ks.Misses() ==> SameEntry(redis.State(), old(redis.State()), k)
    ensures matched ==> ks.Code() !in redis.store && ks.Misses() !in redis.store
    ensures !matched && old(redis.State()).Live(ks.Code()) ==>
              Missed(old(redis.State()), redis.State(), ks, old(redis.State()).CountOf(ks.Misses()) + 1, 5, 300)
  {
    var reply := VerifyAndDeleteOtp(redis, ks, otp, OTP_MAX_ATTEMPTS, OTP_TTL_SECONDS);
    matched := reply == 1;
  }

  // ---------------------------------------------------------------- other keys

  /** Storing a code leaves every key but the code's own two as it was. */
  lemma StoreTouches(db: Db, ks: OtpKeys, otp: string, k: Key)
    requires k != ks.Code() && k != ks.Misses()
    ensures Stored(db, ks, otp).now == db.now && SameEntry(Stored(db, ks, otp), db, k)
  {
  }

  /** A guess does, right or wrong. */
  lemma GuessTouches(db: Db, ks: OtpKeys, guess: string, k: Key)
    requires db.Countable(ks.Misses()) && k != ks.Code() && k != ks.Misses()
    ensures Guessed(db, ks, guess).now == db.now && SameEntry(Guessed(db, ks, guess), db, k)
  {
  }

  lemma CountTouches(db: Db, key: Key, seconds: nat, k: Key)
    requires db.Countable(key) && k != key
    ensures Counted(db, key, seconds).now == db.now && SameEntry(Counted(db, key, seconds), db, k)
  {
  }

  // ---------------------------------------------------------------- sends

  /** Counts a send; the answer is refused past the cap. The refused send was counted
      too, but only the first of a window sets the expiry. */
  method AssertCanSendOtp(redis: Redis, key: Key) returns (r: HttpResult<()>)
    requires redis.State().Countable(key)
    modifies redis
    ensures redis.State() == Counted(old(redis.State()), key, OTP_SEND_WINDOW_SECONDS)
    ensures forall k :: k != key ==> SameEntry(redis.State(), old(redis.State()), k)
    ensures r.Answer? <==> old(redis.State()).CountOf(key) < 5
  {
    var sends := redis.Incr(key);
    if sends == 1 {
      redis.Expire(key, OTP_SEND_WINDOW_SECONDS);
    }
    if sends > OTP_MAX_SENDS {
      return TooManyRequests;
    }
    return Answer(());
  }

  // ---------------------------------------------------------------- the day

  predicate LockedOut(db: Db, ks: OtpKeys)
    requires db.Countable(ks.Day())
  {
    db.CountOf(ks.Day()) >= OTP_DAILY_MISS_LIMIT
  }

  method AssertNotLockedOut(redis: Redis, ks: OtpKeys) returns (r: HttpResult<()>)
    requires redis.State().Countable(ks.Day())
    ensures r.TooManyRequests? <==> redis.State().CountOf(ks.Day()) >= 20
  {
    var v := redis.Get(ks.Day());
    var misses := if v.Some? then v.value.n else 0;
    if misses >= OTP_DAILY_MISS_LIMIT {
      return TooManyRequests;
    }
    return Answer(());
  }

  method RecordMiss(redis: Redis, ks: OtpKeys)
    requires redis.State().Countable(ks.Day())
    modifies redis
    ensures redis.State() == Counted(old(redis.State()), ks.Day(), OTP_DAILY_MISS_WINDOW_SECONDS)
    ensures forall k :: k != ks.Day() ==> SameEntry(redis.State(), old(redis.State()), k)
  {
    var misses := redis.Incr(ks.Day());
    if misses == 1 {
      redis.Expire(ks.Day(), OTP_DAILY_MISS_WINDOW_SECONDS);
    }
  }

  lemma GuessKeepsCounters(db: Db, ks: OtpKeys, guess: string)
    requires ks.Distinct() && CountersHoldNumbers(db, ks)
    ensures CountersHoldNumbers(Guessed(db, ks, guess), ks)
    ensures Guessed(db, ks, guess).now == db.now
    ensures Guessed(db, ks, guess).Get(ks.Day()) == db.Get(ks.Day())
    ensures db.Live(ks.Day()) ==> Guessed(db, ks, guess).Expiry(ks.Day()) == db.Expiry(ks.Day())
  {
    ks.KeysDiffer();
  }

  /** A locked-out identifier is refused before its guess is even looked at; every
      other miss counts towards the day. */
  method ConsumeOtpWithLockout(redis: Redis, ks: OtpKeys, otp: string) returns (r: HttpResult<bool>)
    requires ks.Distinct() && CountersHoldNumbers(redis.State(), ks)
    modifies redis
    ensures r.TooManyRequests? <==> old(redis.State()).CountOf(ks.Day()) >= 20
    ensures r.TooManyRequests? ==> redis.State() == old(redis.State())
    ensures r.Answer? ==> r.value == Matches(old(redis.State()), ks, otp)
    ensures r == Answer(true) ==> redis.State() == Guessed(old(redis.State()), ks, otp)
    ensures r == Answer(false) ==>
              redis.State() == Counted(Guessed(old(redis.State()), ks, otp), ks.Day(), OTP_DAILY_MISS_WINDOW_SECONDS)
    ensures CountersHoldNumbers(redis.State(), ks)
    ensures forall k :: k != ks.Code() && k != ks.Misses() && k != ks.Day() ==>
              SameEntry(redis.State(), old(redis.State()), k)
  {
    var open := AssertNotLockedOut(redis, ks);
    if open.TooManyRequests? {
      return TooManyRequests;
    }
    GuessKeepsCounters(redis.State(), ks, otp);
    var matched := ConsumeOtp(redis, ks, otp);
    if !matched {
      ks.KeysDiffer();
      RecordMiss(redis, ks);
    }
    return Answer(matched);
  }
}
