/** What the bucket migration guarantees over any sequence of runs, each with its own
    keys and flags, each stopped after any request, and with copies that fail in any
    way. */
module KycRuns {
  import opened Basics
  import opened KycMove

  /** One run, killed once `stop` of the requests that can change a bucket were made. */
  datatype Run = Run(keys: seq<string>, flags: Flags, copies: string -> CopyOutcome, stop: nat)

  /** The buckets at the start of a run and after each of its requests, up to the stop. */
  function Trail(b: Buckets, run: Run): (t: seq<Buckets>)
    ensures t != []
  {
    var trail := Moved(b, run.keys, run.flags, run.copies).trail;
    if run.stop < |trail| then trail[..run.stop + 1] else trail
  }

  /** Every state of the buckets over all the runs. */
  function History(b: Buckets, runs: seq<Run>): (h: seq<Buckets>)
    ensures h != []
  {
    if runs == [] then [b]
    else
      var before := History(b, runs[..|runs| - 1]);
      before + Trail(before[|before| - 1], runs[|runs| - 1])
  }

  function After(b: Buckets, runs: seq<Run>): Buckets {
    var h := History(b, runs);
    h[|h| - 1]
  }

  /** A run may be stopped in any of its states. */
  lemma StopsAnywhere(b: Buckets, runs: seq<Run>, run: Run, i: nat)
    requires i < |Moved(After(b, runs), run.keys, run.flags, run.copies).trail|
    ensures After(b, runs + [run.(stop := i)]) == Moved(After(b, runs), run.keys, run.flags, run.copies).trail[i]
  {
    hide Moved;
    assert (runs + [run.(stop := i)])[..|runs|] == runs;
  }

  /** A copy that puts an object of the right size puts the right object. Sizes are all
      `move` looks at, so nothing but this tells a wrong object of the right size. */
  ghost predicate Honest(b: Buckets, copies: string -> CopyOutcome) {
    forall key :: key in b.pub && copies(key).written.Some? && copies(key).written.value.size == b.pub[key].size ==>
      copies(key).written.value == b.pub[key]
  }

  /** Where both buckets hold an object of the same size, it is the same object. */
  ghost predicate SameWhereSized(b: Buckets) {
    forall key :: key in b.pub && key in b.priv && b.priv[key].size == b.pub[key].size ==> b.priv[key] == b.pub[key]
  }

  /** What holds of one key, `b` being the buckets at the start: the public object is
      still there, or the private bucket holds one of its size; a key that was only in
      the private bucket, or that no run touched, is as it was. With `exact`, an object
      of the right size is the right one. */
  ghost predicate KeyKept(b: Buckets, now: Buckets, touched: set<string>, exact: bool, key: string) {
    (key in now.pub ==> key in b.pub && now.pub[key] == b.pub[key]) &&
    (key in b.pub ==> key in now.pub || HeadSize(now.priv, key) == Some(b.pub[key].size)) &&
    (exact && key in b.pub && HeadSize(now.priv, key) == Some(b.pub[key].size) ==> now.priv[key] == b.pub[key]) &&
    (key !in b.pub || key !in touched ==>
       (key in now.priv <==> key in b.priv) && (key in b.priv ==> now.priv[key] == b.priv[key])) &&
    (key in b.pub && key !in touched ==> key in now.pub)
  }

  ghost predicate Kept(b: Buckets, now: Buckets, touched: set<string>, exact: bool) {
    forall key :: KeyKept(b, now, touched, exact, key)
  }

  ghost predicate AllKept(b: Buckets, trail: seq<Buckets>, touched: set<string>, exact: bool) {
    forall i :: 0 <= i < |trail| ==> Kept(b, trail[i], touched, exact)
  }

  lemma CopyKeeps(b: Buckets, now: Buckets, touched: set<string>, exact: bool, key: string, c: CopyOutcome)
    requires Kept(b, now, touched, exact) && key in now.pub && key in touched
    requires exact && c.written.Some? && c.written.value.size == now.pub[key].size ==> c.written.value == now.pub[key]
    ensures Kept(b, Copied(now, key, c), touched, exact)
  {
    forall k
      ensures KeyKept(b, Copied(now, key, c), touched, exact, k)
    {
      assert KeyKept(b, now, touched, exact, k);
    }
  }

  lemma DeleteKeeps(b: Buckets, now: Buckets, touched: set<string>, exact: bool, key: string)
    requires Kept(b, now, touched, exact) && key in touched
    requires key in now.pub ==> HeadSize(now.priv, key) == HeadSize(now.pub, key)
    ensures Kept(b, Deleted(now, key), touched, exact)
  {
    assert KeyKept(b, now, touched, exact, key);
    forall k
      ensures KeyKept(b, Deleted(now, key), touched, exact, k)
    {
      assert KeyKept(b, now, touched, exact, k);
    }
  }

  lemma CopyPhaseKeeps(b: Buckets, p: Progress, touched: set<string>, exact: bool, key: string, flags: Flags, c: CopyOutcome)
    requires p.trail != [] && AllKept(b, p.trail, touched, exact) && key in touched && key in p.Now().pub
    requires exact && c.written.Some? && c.written.value.size == p.Now().pub[key].size ==> c.written.value == p.Now().pub[key]
    ensures var q := SourceCopied(p, key, flags, c);
            AllKept(b, q.trail, touched, exact) &&
            (flags.apply && q.copied > p.copied ==> HeadSize(q.Now().priv, key) == HeadSize(q.Now().pub, key))
  {
    assert Kept(b, p.Now(), touched, exact);
    CopyKeeps(b, p.Now(), touched, exact, key, c);
  }

  lemma DeletePhaseKeeps(b: Buckets, p: Progress, touched: set<string>, exact: bool, key: string, flags: Flags)
    requires p.trail != [] && AllKept(b, p.trail, touched, exact) && key in touched
    requires flags.apply && key in p.Now().pub ==> HeadSize(p.Now().priv, key) == HeadSize(p.Now().pub, key)
    ensures AllKept(b, SourceDeleted(p, key, flags).trail, touched, exact)
  {
    assert Kept(b, p.Now(), touched, exact);
    if flags.apply {
      DeleteKeeps(b, p.Now(), touched, exact, key);
    }
  }

  lemma NextKeeps(b: Buckets, p: Progress, touched: set<string>, exact: bool, key: string, flags: Flags, c: CopyOutcome)
    requires p.trail != [] && AllKept(b, p.trail, touched, exact) && key in touched
    requires exact && key in p.Now().pub && c.written.Some? && c.written.value.size == p.Now().pub[key].size ==>
               c.written.value == p.Now().pub[key]
    ensures AllKept(b, Next(p, key, flags, c).trail, touched, exact)
  {
    var source, dest := HeadSize(p.Now().pub, key), HeadSize(p.Now().priv, key);
    if dest != None && (source == None || dest == source) {
      DeletePhaseKeeps(b, p.(alreadyThere := p.alreadyThere + 1), touched, exact, key, flags);
    } else if source != None {
      CopyPhaseKeeps(b, p, touched, exact, key, flags, c);
      var q := SourceCopied(p, key, flags, c);
      if q.copied > p.copied {
        DeletePhaseKeeps(b, q, touched, exact, key, flags);
      }
    }
  }

  lemma {:induction false} MoveKeeps(b: Buckets, start: Buckets, keys: seq<string>, touched: set<string>, exact: bool,
                                     flags: Flags, copies: string -> CopyOutcome)
    requires Kept(b, start, touched, exact) && (forall key :: key in keys ==> key in touched)
    requires exact ==> Honest(b, copies)
    ensures AllKept(b, Moved(start, keys, flags, copies).trail, touched, exact)
  {
    if keys != [] {
      var before, key := keys[..|keys| - 1], keys[|keys| - 1];
      MoveKeeps(b, start, before, touched, exact, flags, copies);
      var p := Moved(start, before, flags, copies);
      assert KeyKept(b, p.Now(), touched, exact, key);
      NextKeeps(b, p, touched, exact, key, flags, copies(key));
    }
  }

  lemma {:induction false} RunsKeep(b: Buckets, runs: seq<Run>, touched: set<string>, exact: bool)
    requires exact ==> SameWhereSized(b) && forall i :: 0 <= i < |runs| ==> Honest(b, runs[i].copies)
    requires forall i, key :: 0 <= i < |runs| && key in runs[i].keys ==> key in touched
    ensures AllKept(b, History(b, runs), touched, exact)
  {
    if runs != [] {
      var rest, run := runs[..|runs| - 1], runs[|runs| - 1];
      RunsKeep(b, rest, touched, exact);
      MoveKeeps(b, After(b, rest), run.keys, touched, exact, run.flags, run.copies);
    }
  }

  /** Nothing is ever lost: at every moment of every history, an object that began in
      the public bucket is there unchanged or has a private counterpart of its size, and
      one that was only in the private bucket is untouched. */
  lemma NothingLost(b: Buckets, runs: seq<Run>, i: nat, key: string)
    requires i < |History(b, runs)|
    ensures var now := History(b, runs)[i];
            && (key in b.pub ==>
                  (key in now.pub && now.pub[key] == b.pub[key]) ||
                  (key in now.priv && now.priv[key].size == b.pub[key].size))
            && (key !in b.pub ==> key !in now.pub)
            && (key !in b.pub && key in b.priv ==> key in now.priv && now.priv[key] == b.priv[key])
  {
    var touched := set j, k | 0 <= j < |runs| && k in runs[j].keys :: k;
    RunsKeep(b, runs, touched, false);
    assert Kept(b, History(b, runs)[i], touched, false);
    assert KeyKept(b, History(b, runs)[i], touched, false, key);
  }

  /** With copies that never put a wrong object of the right size, the object itself
      survives, not just its size. */
  lemma ContentKept(b: Buckets, runs: seq<Run>, i: nat, key: string)
    requires i < |History(b, runs)| && key in b.pub && SameWhereSized(b)
    requires forall j :: 0 <= j < |runs| ==> Honest(b, runs[j].copies)
    ensures var now := History(b, runs)[i];
            (key in now.pub && now.pub[key] == b.pub[key]) || (key in now.priv && now.priv[key] == b.pub[key])
  {
    var touched := set j, k | 0 <= j < |runs| && k in runs[j].keys :: k;
    RunsKeep(b, runs, touched, true);
    assert Kept(b, History(b, runs)[i], touched, true);
    assert KeyKept(b, History(b, runs)[i], touched, true, key);
  }

  /** Exactly when one deleting pass over a key loses its content: an object of the
      same size and other content was already there, or was what a copy reported as
      done put there. */
  lemma ContentLostIff(b: Buckets, key: string, c: CopyOutcome)
    requires key in b.pub
    ensures var now := Next(Begun(b), key, Flags(true, true), c).Now();
            var lost := key !in now.pub && (key in now.priv ==> now.priv[key] != b.pub[key]);
            var sized := HeadSize(b.priv, key) == Some(b.pub[key].size);
            lost <==>
              (sized && b.priv[key] != b.pub[key]) ||
              (!sized && !c.throws && c.written.Some? && c.written.value.size == b.pub[key].size &&
               c.written.value != b.pub[key])
  {
  }
}
