/** prisma/backfill-kyc-storage-keys.ts: `move`, which copies each object from the
    public bucket into the private one, checks the copy by its size, and deletes the
    original only when asked to. HEAD requests are taken to be truthful: absent means
    absent. A copy may throw, report success without writing, or write something
    else than the source. */
module KycMove {
  import opened Basics

  datatype Object = Object(size: nat, content: int)

  type Bucket = map<string, Object>

  datatype Buckets = Buckets(pub: Bucket, priv: Bucket)

  /** What one CopyObject request does to the destination, and whether it throws. */
  datatype CopyOutcome = CopyOutcome(written: Option<Object>, throws: bool)

  datatype Flags = Flags(apply: bool, deleteSource: bool)

  datatype Why = AbsentFromBoth | CopyUnverified | DestinationNotConfirmed

  datatype Unresolved = Unresolved(key: string, why: Why)

  datatype Report = Report(total: nat, copied: nat, alreadyThere: nat, deleted: nat, missing: nat)

  function HeadSize(bucket: Bucket, key: string): Option<nat> {
    if key in bucket then Some(bucket[key].size) else None
  }

  function Copied(b: Buckets, key: string, c: CopyOutcome): Buckets {
    if c.written.Some? then b.(priv := b.priv[key := c.written.value]) else b
  }

  function Deleted(b: Buckets, key: string): Buckets {
    b.(pub := b.pub - {key})
  }

  /** How far one run has come: the buckets after each request that may change them,
      the counters and the list for a human, and whether a copy has thrown. A run that
      is killed leaves the buckets as one of `trail`. */
  datatype Progress = Progress(trail: seq<Buckets>, threw: bool, copied: nat, alreadyThere: nat, deleted: nat,
                               missing: nat, unresolved: seq<Unresolved>)
  {
    function Now(): Buckets
      requires trail != []
    {
      trail[|trail| - 1]
    }

    function Then(b: Buckets): Progress { this.(trail := trail + [b]) }

    function Flagged(key: string, why: Why): Progress { this.(unresolved := unresolved + [Unresolved(key, why)]) }
  }

  function Begun(b: Buckets): Progress {
    Progress([b], false, 0, 0, 0, 0, [])
  }

  /** Phase 3 for one key. */
  function SourceDeleted(p: Progress, key: string, flags: Flags): (q: Progress)
    requires p.trail != []
    ensures p.trail <= q.trail
  {
    if !(flags.deleteSource && flags.apply) then p
    else if HeadSize(p.Now().priv, key) == None then p.Flagged(key, DestinationNotConfirmed)
    else p.Then(Deleted(p.Now(), key)).(deleted := p.deleted + 1)
  }

  /** Phase 2 for one key that has to be copied: copy, then look at what arrived. The
      phase ends with the copy counted, unless it threw or arrived wrong. */
  function SourceCopied(p: Progress, key: string, flags: Flags, c: CopyOutcome): (q: Progress)
    requires p.trail != []
    ensures p.trail <= q.trail
  {
    if !flags.apply then
      p.(copied := p.copied + 1)
    else
      var q := p.Then(Copied(p.Now(), key, c));
      if c.throws then q.(threw := true)
      else if HeadSize(q.Now().priv, key) != HeadSize(p.Now().pub, key) then q.Flagged(key, CopyUnverified)
      else q.(copied := q.copied + 1)
  }

  /** The loop body for one key. */
  function Next(p: Progress, key: string, flags: Flags, c: CopyOutcome): (q: Progress)
    requires p.trail != []
    ensures p.trail <= q.trail
  {
    var source, dest := HeadSize(p.Now().pub, key), HeadSize(p.Now().priv, key);
    if dest != None && (source == None || dest == source) then
      SourceDeleted(p.(alreadyThere := p.alreadyThere + 1), key, flags)
    else if source == None then
      p.Flagged(key, AbsentFromBoth).(missing := p.missing + 1)
    else
      var q := SourceCopied(p, key, flags, c);
      if q.copied > p.copied then SourceDeleted(q, key, flags) else q
  }

  /** A run over `keys`; an exception ends it. */
  function Moved(b: Buckets, keys: seq<string>, flags: Flags, copies: string -> CopyOutcome): (p: Progress)
    ensures p.trail != []
  {
    if keys == [] then Begun(b)
    else
      var p := Moved(b, keys[..|keys| - 1], flags, copies);
      var key := keys[|keys| - 1];
      if p.threw then p else Next(p, key, flags, copies(key))
  }

  lemma {:induction false} ThrownStays(b: Buckets, keys: seq<string>, i: nat, flags: Flags, copies: string -> CopyOutcome)
    requires i <= |keys| && Moved(b, keys[..i], flags, copies).threw
    ensures Moved(b, keys, flags, copies) == Moved(b, keys[..i], flags, copies)
  {
    if i == |keys| {
      assert keys[..i] == keys;
    } else {
      assert keys[..|keys| - 1][..i] == keys[..i];
      ThrownStays(b, keys[..|keys| - 1], i, flags, copies);
    }
  }

  class Storage {
    var pub: Bucket
    var priv: Bucket
    var unresolved: seq<Unresolved>
    ghost var progress: Progress

    ghost predicate Valid()
      reads this
    {
      progress.trail != [] && progress.Now() == State()
    }

    ghost function State(): Buckets
      reads this
    {
      Buckets(pub, priv)
    }

    constructor (pub: Bucket, priv: Bucket)
      ensures Valid() && State() == Buckets(pub, priv) && unresolved == [] && progress == Begun(State())
    {
      this.pub, this.priv, unresolved := pub, priv, [];
      progress := Begun(Buckets(pub, priv));
    }

    method CopyObject(key: string, c: CopyOutcome) returns (threw: bool)
      requires Valid()
      modifies this`priv, this`progress
      ensures Valid() && State() == Copied(old(State()), key, c) && threw == c.throws
      ensures progress == old(progress).Then(State()).(threw := c.throws)
    {
      if c.written.Some? {
        priv := priv[key := c.written.value];
      }
      progress := progress.Then(State()).(threw := c.throws);
      threw := c.throws;
    }

    method DeleteObject(key: string)
      requires Valid()
      modifies this`pub, this`progress
      ensures Valid() && State() == Deleted(old(State()), key) && progress == old(progress).Then(State())
    {
      pub := pub - {key};
      progress := progress.Then(State());
    }

    method Flag(key: string, why: Why)
      modifies this`unresolved, this`progress
      ensures unresolved == old(unresolved) + [Unresolved(key, why)] && progress == old(progress).Flagged(key, why)
    {
      unresolved := unresolved + [Unresolved(key, why)];
      progress := progress.Flagged(key, why);
    }

    /** What has been pushed on the list since it was `before`. */
    ghost predicate ListIs(before: seq<Unresolved>)
      reads this
    {
      unresolved == before + progress.unresolved
    }

    /** Phase 3 for one key. The destination is looked up once more, whatever came before. */
    method DeleteSource(key: string, flags: Flags, ghost before: seq<Unresolved>) returns (deleted: nat)
      requires Valid() && ListIs(before)
      modifies this
      ensures Valid() && ListIs(before)
      ensures progress == SourceDeleted(old(progress), key, flags)
      ensures progress.deleted == old(progress).deleted + deleted
      ensures deleted == if flags.apply && flags.deleteSource && key in old(priv) then 1 else 0
      ensures priv == old(priv) && pub == if deleted == 1 then old(pub) - {key} else old(pub)
      ensures unresolved == old(unresolved) +
                if flags.apply && flags.deleteSource && deleted == 0 then [Unresolved(key, DestinationNotConfirmed)] else []
    {
      deleted := 0;
      if flags.deleteSource && flags.apply {
        var confirmed := HeadSize(priv, key);
        if confirmed == None {
          Flag(key, DestinationNotConfirmed);
          return;
        }
        DeleteObject(key);
        deleted := 1;
        progress := progress.(deleted := progress.deleted + 1);
      }
    }

    /** Phase 2 for one key: nothing is counted when the copy throws or cannot be verified. */
    method CopySource(key: string, flags: Flags, c: CopyOutcome, sourceSize: Option<nat>, ghost before: seq<Unresolved>)
      returns (copied: nat, threw: bool)
      requires Valid() && !progress.threw && ListIs(before)
      requires sourceSize == HeadSize(pub, key) && sourceSize.Some?
      modifies this
      ensures Valid() && ListIs(before)
      ensures progress == SourceCopied(old(progress), key, flags, c) && threw == progress.threw
      ensures progress.copied == old(progress).copied + copied
      ensures threw <==> flags.apply && c.throws
      ensures pub == old(pub)
      ensures priv == if flags.apply && c.written.Some? then old(priv)[key := c.written.value] else old(priv)
      ensures copied == if threw || (flags.apply && (key !in priv || priv[key].size != pub[key].size)) then 0 else 1
      ensures unresolved == old(unresolved) + if !threw && copied == 0 then [Unresolved(key, CopyUnverified)] else []
    {
      copied, threw := 0, false;
      if flags.apply {
        threw := CopyObject(key, c);
        if threw {
          return;
        }
        var check := HeadSize(priv, key);
        if check == None || check != sourceSize {
          Flag(key, CopyUnverified);
          return;
        }
      }
      copied := 1;
      progress := progress.(copied := progress.copied + 1);
    }

    /** The loop body: what it adds to each counter. */
    method MoveKey(key: string, flags: Flags, c: CopyOutcome, ghost before: seq<Unresolved>)
      returns (copied: nat, alreadyThere: nat, deleted: nat, missing: nat, threw: bool)
      requires Valid() && !progress.threw && ListIs(before)
      modifies this
      ensures Valid() && ListIs(before)
      ensures progress == Next(old(progress), key, flags, c) && threw == progress.threw
      ensures progress.copied == old(progress).copied + copied
      ensures progress.alreadyThere == old(progress).alreadyThere + alreadyThere
      ensures progress.deleted == old(progress).deleted + deleted
      ensures progress.missing == old(progress).missing + missing
    {
      copied, alreadyThere, deleted, missing, threw := 0, 0, 0, 0, false;
      var sourceSize := HeadSize(pub, key);
      var destSize := HeadSize(priv, key);
      if destSize != None && (sourceSize == None || destSize == sourceSize) {
        alreadyThere := 1;
        progress := progress.(alreadyThere := progress.alreadyThere + 1);
      } else if sourceSize == None {
        Flag(key, AbsentFromBoth);
        missing := 1;
        progress := progress.(missing := progress.missing + 1);
        return;
      } else {
        copied, threw := CopySource(key, flags, c, sourceSize, before);
        if copied == 0 {
          return;
        }
      }

      deleted := DeleteSource(key, flags, before);
    }

    /** One run of `move`; `keys` is the set of keys in the order it is walked. No report
        comes back when a copy throws. */
    method Move(keys: seq<string>, flags: Flags, copies: string -> CopyOutcome) returns (r: Option<Report>)
      requires forall i, j :: 0 <= i < j < |keys| ==> keys[i] != keys[j]
      modifies this
      ensures Valid() && progress == Moved(old(State()), keys, flags, copies)
      ensures unresolved == old(unresolved) + progress.unresolved
      ensures r == if progress.threw then None
                   else Some(Report(|keys|, progress.copied, progress.alreadyThere, progress.deleted, progress.missing))
    {
      var copied, alreadyThere, deleted, missing := 0, 0, 0, 0;
      ghost var b := State();
      progress := Begun(b);
      for i := 0 to |keys|
        invariant Valid() && ListIs(old(unresolved))
        invariant progress == Moved(b, keys[..i], flags, copies) && !progress.threw
        invariant copied == progress.copied && alreadyThere == progress.alreadyThere
        invariant deleted == progress.deleted && missing == progress.missing
      {
        assert keys[..i + 1][..i] == keys[..i];
        var c, a, d, m, threw := MoveKey(keys[i], flags, copies(keys[i]), old(unresolved));
        if threw {
          ThrownStays(b, keys, i + 1, flags, copies);
          return None;
        }
        copied, alreadyThere, deleted, missing := copied + c, alreadyThere + a, deleted + d, missing + m;
      }
      assert keys[..|keys|] == keys;
      return Some(Report(|keys|, copied, alreadyThere, deleted, missing));
    }
  }
}
