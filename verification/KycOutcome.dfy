/** What a run does for each key, whatever its flags and however its copies fail: where it
    stops, what it lists, and where every object is in the end. */
module KycOutcome {
  import opened Basics
  import opened KycMove
  import opened KycReport

  /** The public object has no counterpart of its size. */
  predicate NeedsCopy(b: Buckets, key: string) {
    key in b.pub && (key !in b.priv || b.priv[key].size != b.pub[key].size)
  }

  lemma ClassIs(b: Buckets, key: string)
    ensures ClassOf(b, key) == ToCopy <==> NeedsCopy(b, key)
    ensures ClassOf(b, key) == There <==> key in b.priv && !NeedsCopy(b, key)
    ensures ClassOf(b, key) == Gone <==> key !in b.pub && key !in b.priv
  {
  }

  // ------------------------------------------------- where a run stops

  lemma NextThrowsIff(p: Progress, key: string, flags: Flags, c: CopyOutcome)
    requires p.trail != [] && !p.threw
    ensures var q := Next(p, key, flags, c);
            && (q.threw <==> flags.apply && NeedsCopy(p.Now(), key) && c.throws)
            && (q.threw ==> q.unresolved == p.unresolved && q.copied == p.copied && q.Now().pub == p.Now().pub)
  {
  }

  /** The copy of this key ends the run. */
  predicate Stops(b: Buckets, key: string, flags: Flags, copies: string -> CopyOutcome) {
    flags.apply && NeedsCopy(b, key) && copies(key).throws
  }

  /** A run ends early exactly when it applies and the copy of a key that needs one throws;
      a copy that fails in silence ends nothing. */
  lemma {:induction false} StopsIff(b: Buckets, keys: seq<string>, flags: Flags, copies: string -> CopyOutcome)
    requires Distinct(keys)
    ensures Moved(b, keys, flags, copies).threw <==>
              flags.apply && exists key :: key in keys && NeedsCopy(b, key) && copies(key).throws
  {
    if keys != [] {
      var before, key := keys[..|keys| - 1], keys[|keys| - 1];
      StopsIff(b, before, flags, copies);
      assert keys == before + [key];
      var p := Moved(b, before, flags, copies);
      if !p.threw {
        OthersAsBefore(b, before, flags, copies, key);
        NextThrowsIff(p, key, flags, copies(key));
      }
    }
  }

  // ------------------------------------------------- what is done for a key

  /** The copy left something else than an object of the source's size. */
  predicate ArrivedWrong(b: Buckets, key: string, c: CopyOutcome) {
    NeedsCopy(b, key) && (c.written.None? || c.written.value.size != b.pub[key].size)
  }

  /** Listed as what it is: absent from both buckets, or copied without being verified.
      The public object is deleted when asked to unless it is listed; the private one is
      what the copy put there, if one was made. */
  predicate Handled(b: Buckets, p: Progress, key: string, flags: Flags, c: CopyOutcome)
    requires p.trail != []
  {
    var failed := flags.apply && ArrivedWrong(b, key, c);
    var now := p.Now();
    && (Unresolved(key, AbsentFromBoth) in p.unresolved <==> key !in b.pub && key !in b.priv)
    && (Unresolved(key, CopyUnverified) in p.unresolved <==> failed)
    && Unresolved(key, DestinationNotConfirmed) !in p.unresolved
    && (key in now.pub <==> key in b.pub && !(flags.apply && flags.deleteSource && !failed))
    && (key in now.pub ==> now.pub[key] == b.pub[key])
    && (if flags.apply && NeedsCopy(b, key) && c.written.Some? then key in now.priv && now.priv[key] == c.written.value
        else (key in now.priv <==> key in b.priv) && (key in b.priv ==> now.priv[key] == b.priv[key]))
  }

  lemma NotListed(p: Progress, key: string, why: Why)
    requires !Listed(p.unresolved, key)
    ensures Unresolved(key, why) !in p.unresolved
  {
  }

  lemma NextHandles(b: Buckets, p: Progress, key: string, flags: Flags, c: CopyOutcome)
    requires p.trail != [] && !p.threw && AsBefore(b, p.Now(), key) && !Listed(p.unresolved, key)
    ensures var q := Next(p, key, flags, c);
            !q.threw ==> Handled(b, q, key, flags, c)
  {
    NotListed(p, key, AbsentFromBoth);
    NotListed(p, key, CopyUnverified);
    NotListed(p, key, DestinationNotConfirmed);
  }

  lemma NextKeepsList(p: Progress, key: string, flags: Flags, c: CopyOutcome, u: Unresolved)
    requires p.trail != [] && u.key != key
    ensures u in Next(p, key, flags, c).unresolved <==> u in p.unresolved
  {
  }

  lemma StaysHandled(b: Buckets, p: Progress, last: string, key: string, flags: Flags, copies: string -> CopyOutcome)
    requires p.trail != [] && key != last && Handled(b, p, key, flags, copies(key))
    ensures Handled(b, Next(p, last, flags, copies(last)), key, flags, copies(key))
  {
    hide Next;
    NextLeavesOthers(p, last, flags, copies(last), key);
    NextKeepsList(p, last, flags, copies(last), Unresolved(key, AbsentFromBoth));
    NextKeepsList(p, last, flags, copies(last), Unresolved(key, CopyUnverified));
    NextKeepsList(p, last, flags, copies(last), Unresolved(key, DestinationNotConfirmed));
  }

  /** Every key up to the one that stops the run, if any does, is handled: a copy that
      failed in silence lists its key and the run goes on to the next. */
  lemma {:induction false} EveryKeyHandled(b: Buckets, keys: seq<string>, flags: Flags, copies: string -> CopyOutcome, i: nat)
    requires Distinct(keys) && i < |keys|
    requires forall j :: 0 <= j <= i ==> !Stops(b, keys[j], flags, copies)
    ensures Handled(b, Moved(b, keys, flags, copies), keys[i], flags, copies(keys[i]))
  {
    var before, last := keys[..|keys| - 1], keys[|keys| - 1];
    var p := Moved(b, before, flags, copies);
    if i < |before| {
      EveryKeyHandled(b, before, flags, copies, i);
      if !p.threw {
        StaysHandled(b, p, last, keys[i], flags, copies);
      }
    } else {
      NoneStops(b, before, flags, copies);
      OthersAsBefore(b, before, flags, copies, last);
      NextThrowsIff(p, last, flags, copies(last));
      NextHandles(b, p, last, flags, copies(last));
    }
  }

  lemma NoneStops(b: Buckets, keys: seq<string>, flags: Flags, copies: string -> CopyOutcome)
    requires Distinct(keys) && forall j :: 0 <= j < |keys| ==> !Stops(b, keys[j], flags, copies)
    ensures !Moved(b, keys, flags, copies).threw
  {
    StopsIff(b, keys, flags, copies);
    forall key | key in keys
      ensures !Stops(b, key, flags, copies)
    {
      var j :| 0 <= j < |keys| && keys[j] == key;
    }
  }

  /** The keys after it are not reached: both objects are as they were, and none is listed. */
  lemma NothingAfterTheStop(b: Buckets, keys: seq<string>, flags: Flags, copies: string -> CopyOutcome, j: nat, i: nat)
    requires Distinct(keys) && j < i < |keys| && Stops(b, keys[j], flags, copies)
    ensures var p := Moved(b, keys, flags, copies);
            p.threw && AsBefore(b, p.Now(), keys[i]) && !Listed(p.unresolved, keys[i])
  {
    var reached := keys[..j + 1];
    assert keys[j] == reached[j];
    StopsIff(b, reached, flags, copies);
    ThrownStays(b, keys, j + 1, flags, copies);
    OthersAsBefore(b, reached, flags, copies, keys[i]);
  }

  // ------------------------------------------------- the counters

  /** The counters of a run that ends are the keys by what they were before it; of those to
      copy, the ones copied are those whose copy is not listed. */
  lemma {:induction false} CountersAreClasses(b: Buckets, keys: seq<string>, flags: Flags, copies: string -> CopyOutcome)
    requires Distinct(keys) && !Moved(b, keys, flags, copies).threw
    ensures var p := Moved(b, keys, flags, copies);
            && p.alreadyThere == CountClass(b, keys, There)
            && p.missing == CountClass(b, keys, Gone)
            && p.copied + HowMany(p.unresolved, CopyUnverified) == CountClass(b, keys, ToCopy)
  {
    if keys != [] {
      var before, key := keys[..|keys| - 1], keys[|keys| - 1];
      CountersAreClasses(b, before, flags, copies);
      OthersAsBefore(b, before, flags, copies, key);
      NextCounts(Moved(b, before, flags, copies), key, flags, copies(key));
    }
  }

  lemma NextCounts(p: Progress, key: string, flags: Flags, c: CopyOutcome)
    requires p.trail != [] && !Next(p, key, flags, c).threw
    ensures var q, kind := Next(p, key, flags, c), ClassOf(p.Now(), key);
            && q.alreadyThere == p.alreadyThere + (if kind == There then 1 else 0)
            && q.missing == p.missing + (if kind == Gone then 1 else 0)
            && q.copied + HowMany(q.unresolved, CopyUnverified) ==
                 p.copied + HowMany(p.unresolved, CopyUnverified) + (if kind == ToCopy then 1 else 0)
  {
    hide HowMany;
    FlaggedCount(p, key, AbsentFromBoth);
    FlaggedCount(p, key, CopyUnverified);
    FlaggedCount(p, key, DestinationNotConfirmed);
  }
}
