/** Sign-up tokens over whole runs. Counting an upload is two steps, reading the token
    and counting, and other calls may come between them; `Upload` is the same call with
    nothing in between. */
module SignupRuns {
  import opened Basics
  import opened RedisModel
  import opened SignupToken

  const TTL_MS: nat := SIGNUP_TOKEN_TTL_SECONDS * SECOND_MS

  datatype Op =
    | Issue(token: string, identity: Identity)
    | Upload(token: string)
    | Look(call: nat, token: string)
    | Tally(call: nat)
    | Consume(token: string)
    | Wait(ms: nat)

  datatype Issued = Issued(identity: Identity, at: nat, consumed: bool, granted: nat)
  {
    predicate Alive(now: nat) { !consumed && now < at + TTL_MS }
  }

  /** `looked` holds the calls that have read their token and not counted yet. */
  datatype Run = Run(db: Db, looked: map<nat, string>, issued: map<string, Issued>)

  /** Tokens are drawn at random, so a new one is one nobody has used. */
  predicate Fresh(r: Run, token: string) {
    WellSized(Some(token)) && token !in r.issued && TokenKey(token) !in r.db.store && UploadsKey(token) !in r.db.store &&
    forall call :: call in r.looked ==> r.looked[call] != token
  }

  function Granted(r: Run, token: string): map<string, Issued>
    requires r.db.Countable(UploadsKey(token))
  {
    if token in r.issued && r.db.CountOf(UploadsKey(token)) < SIGNUP_MAX_UPLOADS then
      r.issued[token := r.issued[token].(granted := r.issued[token].granted + 1)]
    else
      r.issued
  }

  /** At most `k` calls are between their two steps. A count on something other than a
      number gets the server's error and changes nothing. */
  function Step(r: Run, k: nat, op: Op): Run {
    match op
    case Wait(ms) => r.(db := r.db.Tick(ms))
    case Issue(token, identity) =>
      if !Fresh(r, token) then r
      else
        r.(db := SignupToken.Issued(r.db, token, identity),
           issued := r.issued[token := Issued(identity, r.db.now, false, 0)])
    case Upload(token) =>
      if TokenRead(r.db, Some(token)).None? || !r.db.Countable(UploadsKey(token)) then r
      else r.(db := Counted(r.db, UploadsKey(token), SIGNUP_TOKEN_TTL_SECONDS), issued := Granted(r, token))
    case Look(call, token) =>
      if call in r.looked || |r.looked| >= k || TokenRead(r.db, Some(token)).None? then r
      else r.(looked := r.looked[call := token])
    case Tally(call) =>
      if call !in r.looked then r
      else
        var token := r.looked[call];
        if !r.db.Countable(UploadsKey(token)) then r.(looked := r.looked - {call})
        else Run(Counted(r.db, UploadsKey(token), SIGNUP_TOKEN_TTL_SECONDS), r.looked - {call}, Granted(r, token))
    case Consume(token) =>
      r.(db := Consumed(r.db, token),
         issued := if token in r.issued then r.issued[token := r.issued[token].(consumed := true)] else r.issued)
  }

  function Ran(db: Db, k: nat, ops: seq<Op>): Run {
    if ops == [] then Run(db, map[], map[]) else Step(Ran(db, k, ops[..|ops| - 1]), k, ops[|ops| - 1])
  }

  /** The calls that have read this token and not counted yet. */
  function Looking(r: Run, token: string): set<nat> {
    set call | call in r.looked && r.looked[call] == token
  }

  predicate TokenHolds(r: Run, token: string, x: Issued) {
    x.at <= r.db.now && WellSized(Some(token)) &&
    (r.db.Live(TokenKey(token)) <==> x.Alive(r.db.now)) &&
    (x.Alive(r.db.now) ==>
       r.db.store[TokenKey(token)] == Entry(JsonObject(Fields(x.identity)), Some(x.at + TTL_MS)))
  }

  /** While the token lives so does its counter, which says how many uploads it was
      granted; once it is dead, only the calls already looking can still be granted. */
  predicate UploadsHold(r: Run, k: nat, token: string, x: Issued) {
    var uploads := UploadsKey(token);
    (uploads in r.db.store ==> r.db.store[uploads].value.Count? && r.db.store[uploads].value.n >= 1) &&
    (x.Alive(r.db.now) ==>
       x.granted == Least(r.db.CountOf(uploads), SIGNUP_MAX_UPLOADS) &&
       (r.db.Live(uploads) ==> r.db.Expiry(uploads).Some? && x.at + TTL_MS <= r.db.Expiry(uploads).value) &&
       (uploads in r.db.store ==> r.db.Live(uploads))) &&
    (!x.Alive(r.db.now) ==> x.granted + |Looking(r, token)| <= SIGNUP_MAX_UPLOADS + k)
  }

  predicate Holds(r: Run, k: nat, token: string) {
    token in r.issued && TokenHolds(r, token, r.issued[token]) && UploadsHold(r, k, token, r.issued[token])
  }

  predicate Invariant(r: Run, k: nat) {
    |r.looked| <= k && forall token :: token in r.issued ==> Holds(r, k, token)
  }

  /** A token nobody has used or looked at is issued, whatever else is under way. */
  lemma UnusedIsIssued(r: Run, k: nat, token: string, identity: Identity)
    requires 1 <= |token| <= 128 && token !in r.issued && token !in r.looked.Values
    requires TokenKey(token) !in r.db.store && UploadsKey(token) !in r.db.store
    ensures var s := Step(r, k, Issue(token, identity));
            s.issued == r.issued[token := Issued(identity, r.db.now, false, 0)] && TokenRead(s.db, Some(token)) == Some(identity)
  {
    RecordRoundTrip(identity);
  }

  lemma FewLooking(r: Run, token: string)
    ensures |Looking(r, token)| <= |r.looked|
  {
    Subset(Looking(r, token), r.looked.Keys);
  }

  lemma {:induction false} Subset(a: set<nat>, b: set<nat>)
    requires a <= b
    ensures |a| <= |b|
  {
    if a != {} {
      var x :| x in a;
      Subset(a - {x}, b - {x});
    }
  }

  lemma CountKeeps(r: Run, s: Run, k: nat, token: string, counted: string)
    requires Holds(r, k, token) && r.db.Countable(UploadsKey(counted))
    requires s.db == Counted(r.db, UploadsKey(counted), SIGNUP_TOKEN_TTL_SECONDS) && s.issued == Granted(r, counted)
    requires Looking(s, token) <= Looking(r, token)
    requires token == counted && !r.issued[token].Alive(r.db.now) ==> |Looking(s, token)| < |Looking(r, token)|
    ensures Holds(s, k, token)
  {
    Subset(Looking(s, token), Looking(r, token));
  }

  lemma UploadKeeps(r: Run, k: nat, token: string, upload: string)
    requires Holds(r, k, token)
    ensures Holds(Step(r, k, Upload(upload)), k, token)
  {
    var s := Step(r, k, Upload(upload));
    if s != r {
      assert Looking(s, token) == Looking(r, token);
      CountKeeps(r, s, k, token, upload);
    }
  }

  lemma TallyKeeps(r: Run, k: nat, token: string, call: nat)
    requires Holds(r, k, token)
    ensures Holds(Step(r, k, Tally(call)), k, token)
  {
    if call in r.looked {
      var s, counted := Step(r, k, Tally(call)), r.looked[call];
      assert Looking(s, token) == Looking(r, token) - {call};
      if r.db.Countable(UploadsKey(counted)) {
        CountKeeps(r, s, k, token, counted);
      }
    }
  }

  lemma LookKeeps(r: Run, k: nat, token: string, call: nat, looked: string)
    requires Holds(r, k, token)
    ensures Holds(Step(r, k, Look(call, looked)), k, token)
  {
    var s := Step(r, k, Look(call, looked));
    if s != r && !r.issued[token].Alive(r.db.now) {
      assert looked != token;
      assert Looking(s, token) == Looking(r, token);
    }
  }

  lemma ConsumeKeepsOthers(r: Run, k: nat, token: string, consumed: string)
    requires Holds(r, k, token) && token != consumed
    ensures Holds(Step(r, k, Consume(consumed)), k, token)
  {
    var s := Step(r, k, Consume(consumed));
    assert Looking(s, token) == Looking(r, token);
    assert TokenKey(token) !in {TokenKey(consumed), UploadsKey(consumed)};
    assert UploadsKey(token) !in {TokenKey(consumed), UploadsKey(consumed)};
    assert s.issued[token] == r.issued[token];
  }

  lemma ConsumeKills(r: Run, k: nat, token: string)
    requires Holds(r, k, token) && |r.looked| <= k
    ensures Holds(Step(r, k, Consume(token)), k, token)
  {
    var s := Step(r, k, Consume(token));
    assert Looking(s, token) == Looking(r, token);
    FewLooking(r, token);
    assert !s.db.Live(TokenKey(token)) && UploadsKey(token) !in s.db.store;
  }

  lemma WaitKeeps(r: Run, k: nat, token: string, ms: nat)
    requires Holds(r, k, token) && |r.looked| <= k
    ensures Holds(Step(r, k, Wait(ms)), k, token)
  {
    var s := Step(r, k, Wait(ms));
    assert Looking(s, token) == Looking(r, token);
    FewLooking(r, token);
  }

  lemma IssueKeeps(r: Run, k: nat, token: string, drawn: string, identity: Identity)
    requires Holds(r, k, token)
    ensures Holds(Step(r, k, Issue(drawn, identity)), k, token)
  {
    var s := Step(r, k, Issue(drawn, identity));
    assert Looking(s, token) == Looking(r, token);
  }

  lemma IssueStarts(r: Run, k: nat, drawn: string, identity: Identity)
    requires Fresh(r, drawn)
    ensures Holds(Step(r, k, Issue(drawn, identity)), k, drawn)
  {
  }

  lemma StepKeepsToken(r: Run, k: nat, op: Op, token: string)
    requires Holds(r, k, token) && |r.looked| <= k
    ensures Holds(Step(r, k, op), k, token)
  {
    match op
    case Issue(drawn, identity) => IssueKeeps(r, k, token, drawn, identity);
    case Upload(upload) => UploadKeeps(r, k, token, upload);
    case Look(call, looked) => LookKeeps(r, k, token, call, looked);
    case Tally(call) => TallyKeeps(r, k, token, call);
    case Wait(ms) => WaitKeeps(r, k, token, ms);
    case Consume(consumed) =>
      if token == consumed { ConsumeKills(r, k, token); } else { ConsumeKeepsOthers(r, k, token, consumed); }
  }

  lemma StepKeepsFew(r: Run, k: nat, op: Op)
    requires |r.looked| <= k
    ensures |Step(r, k, op).looked| <= k
  {
    if op.Tally? && op.call in r.looked {
      assert Step(r, k, op).looked.Keys == r.looked.Keys - {op.call};
    }
  }

  lemma StepKeepsInvariant(r: Run, k: nat, op: Op)
    requires Invariant(r, k)
    ensures Invariant(Step(r, k, op), k)
  {
    var s := Step(r, k, op);
    StepKeepsFew(r, k, op);
    forall token | token in s.issued
      ensures Holds(s, k, token)
    {
      if token in r.issued {
        StepKeepsToken(r, k, op, token);
      } else {
        IssueStarts(r, k, token, op.identity);
      }
    }
  }

  lemma {:induction false} RanKeepsInvariant(db: Db, k: nat, ops: seq<Op>)
    ensures Invariant(Ran(db, k, ops), k)
  {
    if ops != [] {
      RanKeepsInvariant(db, k, ops[..|ops| - 1]);
      StepKeepsInvariant(Ran(db, k, ops[..|ops| - 1]), k, ops[|ops| - 1]);
    }
  }

  /** A token reads back as the identity it was issued for, for an hour or until it is
      consumed, and as nothing from then on. */
  lemma ReadsBack(db: Db, k: nat, ops: seq<Op>, token: string)
    requires token in Ran(db, k, ops).issued
    ensures var r := Ran(db, k, ops);
            var x := r.issued[token];
            TokenRead(r.db, Some(token)) ==
              if !x.consumed && r.db.now < x.at + 60 * 60 * 1000 then Some(x.identity) else None
  {
    RanKeepsInvariant(db, k, ops);
    RecordRoundTrip(Ran(db, k, ops).issued[token].identity);
  }

  lemma StepStaysDead(r: Run, k: nat, op: Op, token: string)
    requires token in r.issued && !r.issued[token].Alive(r.db.now)
    ensures var s := Step(r, k, op);
            token in s.issued && !s.issued[token].Alive(s.db.now) && s.issued[token].identity == r.issued[token].identity
  {
  }

  lemma {:induction false} StaysDead(db: Db, k: nat, ops: seq<Op>, more: seq<Op>, token: string)
    requires var r := Ran(db, k, ops);
             token in r.issued && !r.issued[token].Alive(r.db.now)
    ensures var r, s := Ran(db, k, ops), Ran(db, k, ops + more);
            token in s.issued && !s.issued[token].Alive(s.db.now) && s.issued[token].identity == r.issued[token].identity
  {
    hide Step, Issued.Alive;
    if more == [] {
      assert ops + more == ops;
    } else {
      var before := more[..|more| - 1];
      StaysDead(db, k, ops, before, token);
      assert (ops + more)[..|ops + more| - 1] == ops + before;
      StepStaysDead(Ran(db, k, ops + before), k, more[|more| - 1], token);
    }
  }

  /** A token that has read as nothing never reads as anything again, whatever is
      issued, uploaded or consumed after. */
  lemma DeadStaysDead(db: Db, k: nat, ops: seq<Op>, more: seq<Op>, token: string)
    requires token in Ran(db, k, ops).issued && TokenRead(Ran(db, k, ops).db, Some(token)) == None
    ensures TokenRead(Ran(db, k, ops + more).db, Some(token)) == None
  {
    ReadsBack(db, k, ops, token);
    StaysDead(db, k, ops, more, token);
    ReadsBack(db, k, ops + more, token);
  }

  /** With at most `k` uploads caught between reading and counting, a token is granted
      at most 12 + k uploads in its whole life. */
  lemma UploadsPerToken(db: Db, k: nat, ops: seq<Op>, token: string)
    requires token in Ran(db, k, ops).issued
    ensures Ran(db, k, ops).issued[token].granted <= 12 + k
  {
    RanKeepsInvariant(db, k, ops);
  }

  /** Whole calls: twelve, and an upload is allowed exactly while the token lives and
      fewer than twelve were. */
  lemma UploadAllowedIff(db: Db, ops: seq<Op>, token: string)
    requires token in Ran(db, 0, ops).issued
    ensures var r := Ran(db, 0, ops);
            var x := r.issued[token];
            && x.granted <= SIGNUP_MAX_UPLOADS
            && r.db.Countable(UploadsKey(token))
            && (UploadAllowed(r.db, Some(token)) <==> x.Alive(r.db.now) && x.granted < 12)
  {
    RanKeepsInvariant(db, 0, ops);
    RecordRoundTrip(Ran(db, 0, ops).issued[token].identity);
  }

  // ------------------------------------------------- the bound is reached

  lemma Append(db: Db, k: nat, ops: seq<Op>, op: Op)
    ensures Ran(db, k, ops + [op]) == Step(Ran(db, k, ops), k, op)
  {
    assert (ops + [op])[..|ops|] == ops;
  }

  /** Calls 0 .. n have looked at the token. */
  function Calls(n: nat, token: string): (m: map<nat, string>)
    ensures |m| == n && forall i: nat :: i in m <==> i < n
  {
    if n == 0 then map[] else Calls(n - 1, token)[n - 1 := token]
  }

  predicate Granting(r: Run, token: string, granted: nat, n: nat) {
    token in r.issued && r.issued[token].granted == granted && r.looked == Calls(n, token) &&
    TokenRead(r.db, Some(token)).Some? && r.db.Countable(UploadsKey(token)) && r.db.CountOf(UploadsKey(token)) == granted
  }

  predicate Leftover(r: Run, token: string, granted: nat, n: nat) {
    token in r.issued && r.issued[token].granted == granted && r.looked == Calls(n, token)
  }

  lemma OneUpload(r: Run, k: nat, token: string, granted: nat)
    requires Granting(r, token, granted, 0) && granted < 12
    ensures Granting(Step(r, k, Upload(token)), token, granted + 1, 0)
  {
  }

  lemma OneLook(r: Run, k: nat, token: string, n: nat)
    requires Granting(r, token, 12, n) && n < k
    ensures Granting(Step(r, k, Look(n, token)), token, 12, n + 1)
  {
  }

  lemma OneLeftover(r: Run, k: nat, token: string, granted: nat, n: nat)
    requires Leftover(r, token, granted, n) && n > 0
    ensures Leftover(Step(Step(r, k, Consume(token)), k, Tally(n - 1)), token, granted + 1, n - 1)
  {
    var s := Step(r, k, Consume(token));
    assert !s.db.Live(UploadsKey(token));
    assert Calls(n, token) - {n - 1} == Calls(n - 1, token);
    assert s.looked[n - 1] == token;
  }

  /** The bound is exact: twelve uploads, then `k` calls that read the token while it
      lives and count, each after a `consumeSignupToken`. */
  lemma BoundIsReached(k: nat, token: string, identity: Identity) returns (ops: seq<Op>)
    requires WellSized(Some(token))
    ensures var r := Ran(Db(map[], 0), k, ops);
            token in r.issued && r.issued[token].granted == 12 + k
  {
    var db := Db(map[], 0);
    assert [Issue(token, identity)] == [] + [Issue(token, identity)];
    Append(db, k, [], Issue(token, identity));
    ops := [Issue(token, identity)];
    RecordRoundTrip(identity);
    for i := 0 to 12
      invariant Granting(Ran(db, k, ops), token, i, 0)
    {
      OneUpload(Ran(db, k, ops), k, token, i);
      Append(db, k, ops, Upload(token));
      ops := ops + [Upload(token)];
    }
    for n := 0 to k
      invariant Granting(Ran(db, k, ops), token, 12, n)
    {
      OneLook(Ran(db, k, ops), k, token, n);
      Append(db, k, ops, Look(n, token));
      ops := ops + [Look(n, token)];
    }
    for i := 0 to k
      invariant Leftover(Ran(db, k, ops), token, 12 + i, k - i)
    {
      OneLeftover(Ran(db, k, ops), k, token, 12 + i, k - i);
      Append(db, k, ops, Consume(token));
      Append(db, k, ops + [Consume(token)], Tally(k - i - 1));
      ops := ops + [Consume(token)] + [Tally(k - i - 1)];
    }
  }
}
