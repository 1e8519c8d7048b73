/** What one completed run reports and leaves behind, and why running it again resumes
    rather than restarts. */
module KycReport {
  import opened Basics
  import opened KycMove
  import opened KycRuns

  predicate Distinct(keys: seq<string>) {
    forall i, j :: 0 <= i < j < |keys| ==> keys[i] != keys[j]
  }

  function HowMany(unresolved: seq<Unresolved>, why: Why): nat {
    if unresolved == [] then 0
    else HowMany(unresolved[..|unresolved| - 1], why) + if unresolved[|unresolved| - 1].why == why then 1 else 0
  }

  predicate Listed(unresolved: seq<Unresolved>, key: string) {
    exists i :: 0 <= i < |unresolved| && unresolved[i].key == key
  }

  // ------------------------------------------------- the counters

  predicate Balanced(p: Progress, keys: nat, flags: Flags) {
    !p.threw ==>
      keys == p.copied + p.alreadyThere + p.missing + HowMany(p.unresolved, CopyUnverified) &&
      p.missing == HowMany(p.unresolved, AbsentFromBoth) && HowMany(p.unresolved, DestinationNotConfirmed) == 0 &&
      p.deleted == if flags.apply && flags.deleteSource then p.copied + p.alreadyThere else 0
  }

  lemma FlaggedCount(p: Progress, key: string, why: Why)
    ensures forall w :: HowMany(p.Flagged(key, why).unresolved, w) == HowMany(p.unresolved, w) + if w == why then 1 else 0
  {
    assert p.Flagged(key, why).unresolved[..|p.unresolved|] == p.unresolved;
  }

  lemma NextBalanced(p: Progress, keys: nat, key: string, flags: Flags, c: CopyOutcome)
    requires p.trail != [] && !p.threw && Balanced(p, keys, flags)
    ensures Balanced(Next(p, key, flags, c), keys + 1, flags)
  {
    hide HowMany, HeadSize, Copied, Deleted;
    FlaggedCount(p, key, AbsentFromBoth);
    FlaggedCount(p, key, CopyUnverified);
  }

  /** Every key of a completed run is counted once: copied, already there, missing, or
      copied without being verified. The last two are listed for a human, and nothing
      else is: the refusal to delete is never needed, because a verified destination is
      still there. Every key copied or already there is deleted when asked to, the keys
      with nothing left to delete included. */
  lemma {:induction false} ReportAddsUp(b: Buckets, keys: seq<string>, flags: Flags, copies: string -> CopyOutcome)
    ensures var p := Moved(b, keys, flags, copies);
            !p.threw ==>
              && |keys| == p.copied + p.alreadyThere + p.missing + HowMany(p.unresolved, CopyUnverified)
              && p.missing == HowMany(p.unresolved, AbsentFromBoth)
              && HowMany(p.unresolved, DestinationNotConfirmed) == 0
              && p.deleted == if flags.apply && flags.deleteSource then p.copied + p.alreadyThere else 0
  {
    if keys != [] {
      var before := keys[..|keys| - 1];
      ReportAddsUp(b, before, flags, copies);
      var p := Moved(b, before, flags, copies);
      if !p.threw {
        NextBalanced(p, |before|, keys[|keys| - 1], flags, copies(keys[|keys| - 1]));
      }
    }
  }

  // ------------------------------------------------- a complete run that deletes

  /** Either the key is listed and its public object is where it was, or it is only in
      the private bucket, at its size if it began in the public one. */
  predicate Settled(b: Buckets, p: Progress, key: string)
    requires p.trail != []
  {
    if Listed(p.unresolved, key) then
      (key in p.Now().pub <==> key in b.pub) && (key in b.pub ==> p.Now().pub[key] == b.pub[key])
    else
      key !in p.Now().pub && key in p.Now().priv && (key in b.pub ==> p.Now().priv[key].size == b.pub[key].size)
  }

  predicate AsBefore(b: Buckets, now: Buckets, key: string) {
    (key in now.pub <==> key in b.pub) && (key in b.pub ==> now.pub[key] == b.pub[key]) &&
    (key in now.priv <==> key in b.priv) && (key in b.priv ==> now.priv[key] == b.priv[key])
  }

  lemma FlaggedLists(p: Progress, key: string, why: Why, k: string)
    ensures Listed(p.Flagged(key, why).unresolved, k) <==> k == key || Listed(p.unresolved, k)
  {
    var more := p.Flagged(key, why).unresolved;
    assert more[|p.unresolved|].key == key;
    if i :| 0 <= i < |p.unresolved| && p.unresolved[i].key == k {
      assert more[i].key == k;
    }
  }

  lemma NextSettles(b: Buckets, p: Progress, key: string, c: CopyOutcome)
    requires p.trail != [] && !p.threw && AsBefore(b, p.Now(), key) && !Listed(p.unresolved, key)
    ensures var q := Next(p, key, Flags(true, true), c);
            !q.threw ==> Settled(b, q, key)
  {
    FlaggedLists(p, key, AbsentFromBoth, key);
    FlaggedLists(p, key, CopyUnverified, key);
  }

  predicate LeavesAlone(p: Progress, q: Progress, other: string)
    requires p.trail != [] && q.trail != []
  {
    AsBefore(p.Now(), q.Now(), other) && (Listed(q.unresolved, other) <==> Listed(p.unresolved, other))
  }

  lemma CopyLeavesOthers(p: Progress, key: string, flags: Flags, c: CopyOutcome, other: string)
    requires p.trail != [] && other != key
    ensures LeavesAlone(p, SourceCopied(p, key, flags, c), other)
  {
    FlaggedLists(p.Then(Copied(p.Now(), key, c)), key, CopyUnverified, other);
  }

  lemma DeleteLeavesOthers(p: Progress, key: string, flags: Flags, other: string)
    requires p.trail != [] && other != key
    ensures LeavesAlone(p, SourceDeleted(p, key, flags), other)
  {
    FlaggedLists(p, key, DestinationNotConfirmed, other);
  }

  lemma NextLeavesOthers(p: Progress, key: string, flags: Flags, c: CopyOutcome, other: string)
    requires p.trail != [] && other != key
    ensures LeavesAlone(p, Next(p, key, flags, c), other)
  {
    var q := SourceCopied(p, key, flags, c);
    if ClassOf(p.Now(), key) == There {
      DeleteLeavesOthers(p.(alreadyThere := p.alreadyThere + 1), key, flags, other);
    } else if ClassOf(p.Now(), key) == Gone {
      FlaggedLists(p, key, AbsentFromBoth, other);
    } else {
      CopyLeavesOthers(p, key, flags, c, other);
      DeleteLeavesOthers(q, key, flags, other);
    }
  }

  lemma {:induction false} OthersAsBefore(b: Buckets, keys: seq<string>, flags: Flags, copies: string -> CopyOutcome, other: string)
    requires other !in keys
    ensures var p := Moved(b, keys, flags, copies);
            AsBefore(b, p.Now(), other) && !Listed(p.unresolved, other)
  {
    if keys != [] {
      var before := keys[..|keys| - 1];
      OthersAsBefore(b, before, flags, copies, other);
      NextLeavesOthers(Moved(b, before, flags, copies), keys[|keys| - 1], flags, copies(keys[|keys| - 1]), other);
    }
  }

  /** After a run with --apply --delete-source that comes to its end, with copies that
      may have failed without throwing, each key is either on the list for a human with
      its public object untouched, or gone from the public bucket and safely in the
      private one. */
  lemma {:induction false} EveryKeySettled(b: Buckets, keys: seq<string>, copies: string -> CopyOutcome, key: string)
    requires Distinct(keys) && key in keys && !Moved(b, keys, Flags(true, true), copies).threw
    ensures Settled(b, Moved(b, keys, Flags(true, true), copies), key)
  {
    var before, last := keys[..|keys| - 1], keys[|keys| - 1];
    var p := Moved(b, before, Flags(true, true), copies);
    if key == last {
      OthersAsBefore(b, before, Flags(true, true), copies, key);
      NextSettles(b, p, key, copies(key));
    } else {
      assert key in before;
      EveryKeySettled(b, before, copies, key);
      NextLeavesOthers(p, last, Flags(true, true), copies(last), key);
    }
  }

  // ------------------------------------------------- copies that succeed

  /** Every copy puts the source in the destination and says so. */
  ghost predicate AllSucceed(b: Buckets, keys: seq<string>, copies: string -> CopyOutcome) {
    forall key :: key in keys && key in b.pub ==> copies(key) == CopyOutcome(Some(b.pub[key]), false)
  }

  datatype Class = There | Gone | ToCopy

  function ClassOf(b: Buckets, key: string): Class {
    var source, dest := HeadSize(b.pub, key), HeadSize(b.priv, key);
    if dest != None && (source == None || dest == source) then There else if source == None then Gone else ToCopy
  }

  function CountClass(b: Buckets, keys: seq<string>, kind: Class): nat {
    if keys == [] then 0
    else CountClass(b, keys[..|keys| - 1], kind) + if ClassOf(b, keys[|keys| - 1]) == kind then 1 else 0
  }

  /** The private bucket once every key that needs it is copied. */
  function Filled(b: Buckets, keys: seq<string>): (m: Bucket)
    ensures forall key :: key in m <==> key in b.priv || (key in keys && ClassOf(b, key) == ToCopy)
    ensures forall key :: key in m ==>
              m[key] == if key in keys && ClassOf(b, key) == ToCopy then b.pub[key] else b.priv[key]
  {
    b.priv + map key | key in keys && key in b.pub && ClassOf(b, key) == ToCopy :: b.pub[key]
  }

  /** The buckets once every key is moved. */
  function Migrated(b: Buckets, keys: seq<string>, delete: bool): Buckets {
    Buckets(if delete then b.pub - (set key | key in keys) else b.pub, Filled(b, keys))
  }

  predicate Counts(p: Progress, b: Buckets, keys: seq<string>) {
    p.copied == CountClass(b, keys, ToCopy) && p.alreadyThere == CountClass(b, keys, There) &&
    p.missing == CountClass(b, keys, Gone)
  }

  function MigratedOne(b: Buckets, key: string, delete: bool): Buckets {
    Buckets(if delete then b.pub - {key} else b.pub,
            if ClassOf(b, key) == ToCopy then b.priv[key := b.pub[key]] else b.priv)
  }

  lemma FilledThen(b: Buckets, keys: seq<string>, key: string)
    requires key !in keys
    ensures Filled(b, keys + [key]) ==
              if ClassOf(b, key) == ToCopy then Filled(b, keys)[key := b.pub[key]] else Filled(b, keys)
  {
  }

  lemma StillToMove(b: Buckets, keys: seq<string>, key: string, delete: bool)
    requires key !in keys
    ensures AsBefore(b, Migrated(b, keys, delete), key)
    ensures ClassOf(Migrated(b, keys, delete), key) == ClassOf(b, key)
    ensures ClassOf(b, key) == ToCopy ==> key in b.pub
  {
  }

  lemma MigratedThen(b: Buckets, keys: seq<string>, key: string, delete: bool)
    requires key !in keys
    ensures MigratedOne(Migrated(b, keys, delete), key, delete) == Migrated(b, keys + [key], delete)
  {
    hide Filled, ClassOf;
    StillToMove(b, keys, key, delete);
    FilledThen(b, keys, key);
    assert (set k | k in keys) + {key} == set k | k in keys + [key];
  }

  lemma NextSucceeds(p: Progress, key: string, delete: bool, c: CopyOutcome)
    requires p.trail != [] && !p.threw
    requires key in p.Now().pub ==> c == CopyOutcome(Some(p.Now().pub[key]), false)
    ensures var q, kind := Next(p, key, Flags(true, delete), c), ClassOf(p.Now(), key);
            && !q.threw && q.Now() == MigratedOne(p.Now(), key, delete)
            && q.copied == p.copied + (if kind == ToCopy then 1 else 0)
            && q.alreadyThere == p.alreadyThere + (if kind == There then 1 else 0)
            && q.missing == p.missing + (if kind == Gone then 1 else 0)
  {
    if ClassOf(p.Now(), key) == Gone {
      assert p.Now().pub - {key} == p.Now().pub;
    }
  }

  lemma SuccessfulNext(b: Buckets, keys: seq<string>, key: string, delete: bool, c: CopyOutcome, p: Progress)
    requires p.trail != [] && !p.threw && key !in keys && p.Now() == Migrated(b, keys, delete)
    requires key in b.pub ==> c == CopyOutcome(Some(b.pub[key]), false)
    ensures var q, kind := Next(p, key, Flags(true, delete), c), ClassOf(b, key);
            && !q.threw && q.Now() == Migrated(b, keys + [key], delete)
            && q.copied == p.copied + (if kind == ToCopy then 1 else 0)
            && q.alreadyThere == p.alreadyThere + (if kind == There then 1 else 0)
            && q.missing == p.missing + (if kind == Gone then 1 else 0)
  {
    StillToMove(b, keys, key, delete);
    MigratedThen(b, keys, key, delete);
    NextSucceeds(p, key, delete, c);
  }

  /** When every copy succeeds a run comes to its end, its counters are the classes the
      keys were in before it, and it leaves the buckets migrated. */
  lemma {:induction false} SuccessfulRun(b: Buckets, keys: seq<string>, delete: bool, copies: string -> CopyOutcome)
    requires Distinct(keys) && AllSucceed(b, keys, copies)
    ensures var p := Moved(b, keys, Flags(true, delete), copies);
            !p.threw && Counts(p, b, keys) && p.Now() == Migrated(b, keys, delete)
  {
    hide Next, Filled;
    if keys == [] {
      assert Filled(b, keys) == b.priv;
    } else {
      var before, key := keys[..|keys| - 1], keys[|keys| - 1];
      SuccessfulRun(b, before, delete, copies);
      SuccessfulNext(b, before, key, delete, copies(key), Moved(b, before, Flags(true, delete), copies));
      assert before + [key] == keys;
    }
  }

  /** A dry run counts the same classes and touches neither bucket. */
  lemma {:induction false} DryRun(b: Buckets, keys: seq<string>, delete: bool, copies: string -> CopyOutcome)
    ensures var p := Moved(b, keys, Flags(false, delete), copies);
            !p.threw && p.trail == [b] && p.deleted == 0 && Counts(p, b, keys)
  {
    if keys != [] {
      DryRun(b, keys[..|keys| - 1], delete, copies);
    }
  }

  /** A dry run predicts what the run with --apply reports. */
  lemma DryRunPredicts(b: Buckets, keys: seq<string>, delete: bool, copies: string -> CopyOutcome)
    requires Distinct(keys) && AllSucceed(b, keys, copies)
    ensures var dry, applied := Moved(b, keys, Flags(false, delete), copies), Moved(b, keys, Flags(true, delete), copies);
            && dry.copied == applied.copied && dry.alreadyThere == applied.alreadyThere && dry.missing == applied.missing
            && dry.Now() == b && dry.deleted == 0
            && applied.deleted == if delete then dry.copied + dry.alreadyThere else 0
  {
    DryRun(b, keys, delete, copies);
    SuccessfulRun(b, keys, delete, copies);
    ReportAddsUp(b, keys, Flags(true, delete), copies);
  }

  lemma {:induction false} NothingToCopy(b: Buckets, after: Buckets, keys: seq<string>)
    requires forall key :: key in keys ==> ClassOf(after, key) != ToCopy && (ClassOf(after, key) == Gone <==> ClassOf(b, key) == Gone)
    ensures CountClass(after, keys, ToCopy) == 0 && CountClass(after, keys, Gone) == CountClass(b, keys, Gone)
  {
    if keys != [] {
      NothingToCopy(b, after, keys[..|keys| - 1]);
    }
  }

  /** The next run, with any flags and however its copies would behave, copies nothing:
      it only finds the same keys missing. */
  lemma SecondRunCopiesNothing(b: Buckets, keys: seq<string>, delete: bool, copies: string -> CopyOutcome,
                               flags: Flags, more: string -> CopyOutcome)
    requires Distinct(keys) && AllSucceed(b, keys, copies)
    ensures var first := Moved(b, keys, Flags(true, delete), copies);
            var second := Moved(first.Now(), keys, flags, more);
            !second.threw && second.copied == 0 && second.missing == first.missing &&
            second.alreadyThere == |keys| - first.missing && second.Now().priv == first.Now().priv
  {
    SuccessfulRun(b, keys, delete, copies);
    var now := Migrated(b, keys, delete);
    forall key | key in keys
      ensures ClassOf(now, key) != ToCopy && (ClassOf(now, key) == Gone <==> ClassOf(b, key) == Gone)
    {
    }
    NothingToCopy(b, now, keys);
    NoCopies(now, keys, flags, more);
  }

  lemma NextFinds(p: Progress, key: string, flags: Flags, c: CopyOutcome)
    requires p.trail != [] && ClassOf(p.Now(), key) != ToCopy
    ensures var q := Next(p, key, flags, c);
            && q.threw == p.threw && q.copied == p.copied && q.Now().priv == p.Now().priv
            && q.alreadyThere == p.alreadyThere + (if ClassOf(p.Now(), key) == There then 1 else 0)
            && q.missing == p.missing + (if ClassOf(p.Now(), key) == Gone then 1 else 0)
  {
  }

  lemma {:induction false} NoCopies(b: Buckets, keys: seq<string>, flags: Flags, copies: string -> CopyOutcome)
    requires Distinct(keys) && forall key :: key in keys ==> ClassOf(b, key) != ToCopy
    ensures var p := Moved(b, keys, flags, copies);
            !p.threw && p.copied == 0 && p.Now().priv == b.priv && Counts(p, b, keys) &&
            p.alreadyThere + p.missing == |keys|
  {
    if keys != [] {
      var before, key := keys[..|keys| - 1], keys[|keys| - 1];
      NoCopies(b, before, flags, copies);
      OthersAsBefore(b, before, flags, copies, key);
      var p := Moved(b, before, flags, copies);
      assert ClassOf(p.Now(), key) == ClassOf(b, key);
      NextFinds(p, key, flags, copies(key));
    }
  }

  // ------------------------------------------------- resuming

  lemma SameFilled(b: Buckets, now: Buckets, keys: seq<string>, touched: set<string>)
    requires SameWhereSized(b) && Kept(b, now, touched, true) && touched == set key | key in keys
    ensures Filled(now, keys) == Filled(b, keys)
  {
    forall key
      ensures (key in Filled(now, keys) <==> key in Filled(b, keys)) &&
              (key in Filled(b, keys) ==> Filled(now, keys)[key] == Filled(b, keys)[key])
    {
      assert KeyKept(b, now, touched, true, key);
    }
  }

  lemma SameMigration(b: Buckets, now: Buckets, keys: seq<string>)
    requires SameWhereSized(b) && Kept(b, now, set key | key in keys, true)
    ensures Migrated(now, keys, true) == Migrated(b, keys, true)
  {
    var touched := set key | key in keys;
    SameFilled(b, now, keys, touched);
    forall key
      ensures (key in now.pub - touched <==> key in b.pub - touched)
      ensures key in now.pub - touched ==> now.pub[key] == b.pub[key]
    {
      assert KeyKept(b, now, touched, true, key);
    }
    assert now.pub - touched == b.pub - touched;
  }

  lemma StillSucceed(b: Buckets, now: Buckets, keys: seq<string>, touched: set<string>, copies: string -> CopyOutcome)
    requires Kept(b, now, touched, true) && AllSucceed(b, keys, copies)
    ensures AllSucceed(now, keys, copies)
  {
    forall key | key in keys && key in now.pub
      ensures copies(key) == CopyOutcome(Some(now.pub[key]), false)
    {
      assert KeyKept(b, now, touched, true, key);
    }
  }

  /** Runs that were killed, refused or botched leave nothing behind that matters: the
      successful run that follows ends exactly where it would have ended without them. */
  lemma ResumesRatherThanRestarts(b: Buckets, keys: seq<string>, runs: seq<Run>, copies: string -> CopyOutcome)
    requires Distinct(keys) && SameWhereSized(b) && AllSucceed(b, keys, copies)
    requires forall i :: 0 <= i < |runs| ==> Honest(b, runs[i].copies)
    requires forall i, key :: 0 <= i < |runs| && key in runs[i].keys ==> key in keys
    ensures Moved(After(b, runs), keys, Flags(true, true), copies).Now() == Moved(b, keys, Flags(true, true), copies).Now()
    ensures !Moved(After(b, runs), keys, Flags(true, true), copies).threw
  {
    var touched := set key | key in keys;
    RunsKeep(b, runs, touched, true);
    var now := After(b, runs);
    assert Kept(b, now, touched, true);
    StillSucceed(b, now, keys, touched, copies);
    SuccessfulRun(b, keys, true, copies);
    SuccessfulRun(now, keys, true, copies);
    SameMigration(b, now, keys);
  }
}
