/** The part of Redis the sign-in flows rely on: keys that hold a value and may
    carry an expiry, a clock, and the commands SET EX, GET, INCR, EXPIRE and DEL.

    `Db` is the value of a server at one instant; class `Redis` is the server the
    commands update in place. Time is in milliseconds, as Redis keeps it, while the
    callers give their expiries in seconds. */
module RedisModel {
  import opened Basics

  const SECOND_MS: nat := 1000

  /** A key names a plain string, or is one of the two keys a sign-up token owns.
      The latter contain the token's SHA-256; keeping the token itself is the
      assumption that the hash does not collide. */
  datatype Key = Named(name: string) | TokenKey(token: string) | UploadsKey(token: string)

  /** A field of a parsed JSON object: a string, or anything else. */
  datatype JsonField = JsonString(text: string) | JsonOther

  /** What a key holds: text that is not a JSON object, a counter, or the text of a
      JSON object, kept parsed. */
  datatype Value = Text(text: string) | Count(n: int) | JsonObject(fields: map<string, JsonField>)

  datatype Entry = Entry(value: Value, expires: Option<nat>)

  datatype Db = Db(store: map<Key, Entry>, now: nat)
  {
    /** An entry past its expiry is as good as absent, whether or not the server
        has got round to removing it. */
    predicate Live(k: Key) {
      k in store && (store[k].expires.Some? ==> now < store[k].expires.value)
    }

    function Get(k: Key): Option<Value> {
      if Live(k) then Some(store[k].value) else None
    }

    function Expiry(k: Key): Option<nat>
      requires Live(k)
    {
      store[k].expires
    }

    /** INCR refuses a value that is not a number. */
    predicate Countable(k: Key) {
      Live(k) ==> store[k].value.Count?
    }

    function CountOf(k: Key): int
      requires Countable(k)
    {
      if Live(k) then store[k].value.n else 0
    }

    function SetEx(k: Key, v: Value, seconds: nat): Db {
      this.(store := store[k := Entry(v, Some(now + seconds * SECOND_MS))])
    }

    /** INCR keeps the expiry of a live counter and starts a fresh one without any. */
    function Incr(k: Key): Db
      requires Countable(k)
    {
      this.(store := store[k := Entry(Count(CountOf(k) + 1), if Live(k) then store[k].expires else None)])
    }

    function Expire(k: Key, seconds: nat): Db {
      if Live(k) then
        this.(store := store[k := Entry(store[k].value, Some(now + seconds * SECOND_MS))])
      else
        this
    }

    function Del(ks: set<Key>): Db {
      this.(store := store - ks)
    }

    function Tick(ms: nat): Db {
      this.(now := now + ms)
    }
  }

  /** INCR, and EXPIRE on the first: one more on a counter that lasts `seconds` from its first. */
  function Counted(db: Db, k: Key, seconds: nat): Db
    requires db.Countable(k)
  {
    if db.CountOf(k) + 1 == 1 then db.Incr(k).Expire(k, seconds) else db.Incr(k)
  }

  /** The two servers have the same entry under `k`, or none. */
  predicate SameEntry(a: Db, b: Db, k: Key) {
    (k in a.store <==> k in b.store) && (k in a.store ==> a.store[k] == b.store[k])
  }

  class Redis {
    var store: map<Key, Entry>
    var now: nat

    ghost function State(): Db
      reads this
    {
      Db(store, now)
    }

    constructor (start: nat)
      ensures State() == Db(map[], start)
    {
      store, now := map[], start;
    }

    method Get(k: Key) returns (v: Option<Value>)
      ensures v == State().Get(k)
    {
      if k in store && (store[k].expires.None? || now < store[k].expires.value) {
        v := Some(store[k].value);
      } else {
        v := None;
      }
    }

    method SetEx(k: Key, v: Value, seconds: nat)
      modifies this`store
      ensures State() == old(State()).SetEx(k, v, seconds)
    {
      store := store[k := Entry(v, Some(now + seconds * SECOND_MS))];
    }

    /** The reply is the new count. */
    method Incr(k: Key) returns (n: int)
      requires State().Countable(k)
      modifies this`store
      ensures State() == old(State()).Incr(k)
      ensures n == old(State()).CountOf(k) + 1 == State().CountOf(k)
    {
      var v := Get(k);
      n := if v.Some? then v.value.n + 1 else 1;
      store := store[k := Entry(Count(n), if v.Some? then store[k].expires else None)];
    }

    method Expire(k: Key, seconds: nat)
      modifies this`store
      ensures State() == old(State()).Expire(k, seconds)
    {
      var v := Get(k);
      if v.Some? {
        store := store[k := Entry(v.value, Some(now + seconds * SECOND_MS))];
      }
    }

    method Del(ks: set<Key>)
      modifies this`store
      ensures State() == old(State()).Del(ks)
    {
      store := store - ks;
    }
  }
}
