/** src/common/queries/text-search.ts: `splitTiers` and `pageByTier`. One page across
    tiers has to be the page of the tiers laid end to end; the stored rows stay as they
    are while pages are read. */
module TierPaging {
  import opened Basics
  import SqlClause
  import TextSearch

  datatype Hit = Hit(id: string, direct: bool)

  function Ids(hits: seq<Hit>, direct: bool): seq<string> {
    if hits == [] then []
    else (if hits[0].direct == direct then [hits[0].id] else []) + Ids(hits[1..], direct)
  }

  /** `splitTiers` */
  function SplitTiers(hits: seq<Hit>): seq<seq<string>> {
    [Ids(hits, true), Ids(hits, false)]
  }

  function AllIds(hits: seq<Hit>): seq<string> {
    seq(|hits|, i requires 0 <= i < |hits| => hits[i].id)
  }

  lemma {:induction false} InTier(hits: seq<Hit>, direct: bool, id: string)
    ensures id in Ids(hits, direct) <==> Hit(id, direct) in hits
  {
    if hits != [] {
      InTier(hits[1..], direct, id);
      assert hits == [hits[0]] + hits[1..];
    }
  }

  /** Every hit goes to one tier, once for each time it was found. */
  lemma {:induction false} TiersPartition(hits: seq<Hit>)
    ensures multiset(Ids(hits, true)) + multiset(Ids(hits, false)) == multiset(AllIds(hits))
  {
    if hits != [] {
      TiersPartition(hits[1..]);
      assert AllIds(hits) == [hits[0].id] + AllIds(hits[1..]);
      assert Ids(hits, hits[0].direct) == [hits[0].id] + Ids(hits[1..], hits[0].direct);
      assert Ids(hits, !hits[0].direct) == Ids(hits[1..], !hits[0].direct);
    }
  }

  // ------------------------------------------------- tiers laid end to end

  /** What a caller's filters and sort make of a list of ids. */
  type Found<T> = seq<string> -> seq<T>

  /** The rows of one tier; a tier without ids is not looked up. */
  function RowsOf<T>(ids: seq<string>, found: Found<T>): seq<T> {
    if ids == [] then [] else found(ids)
  }

  function EndToEnd<T>(tiers: seq<seq<string>>, found: Found<T>): seq<T> {
    if tiers == [] then [] else EndToEnd(tiers[..|tiers| - 1], found) + RowsOf(tiers[|tiers| - 1], found)
  }

  /** At most `take` elements from position `skip` on. */
  function Page<T>(s: seq<T>, skip: nat, take: nat): seq<T> {
    s[Least(skip, |s|)..Least(skip + take, |s|)]
  }

  function CountOf<T>(ids: seq<string>, found: Found<T>): nat {
    if ids != [] then |found(ids)| else 0
  }

  /** After the tiers so far, `rows` is their page and `offset` what is left to skip. */
  ghost predicate Reached<T>(done: seq<T>, skip: nat, take: nat, rows: seq<T>, offset: nat) {
    rows == Page(done, skip, take) && offset == if skip >= |done| then skip - |done| else 0
  }

  lemma NextTierSkipped<T>(done: seq<T>, more: seq<T>, skip: nat, take: nat, rows: seq<T>, offset: nat)
    requires Reached(done, skip, take, rows, offset) && offset >= |more|
    ensures Reached(done + more, skip, take, rows, offset - |more|)
  {
  }

  lemma NextTierRead<T>(done: seq<T>, more: seq<T>, skip: nat, take: nat, rows: seq<T>, offset: nat)
    requires Reached(done, skip, take, rows, offset) && offset < |more| && |rows| < take
    ensures Reached(done + more, skip, take, rows + Page(more, offset, take - |rows|), 0)
  {
  }

  lemma FullPage<T>(done: seq<T>, more: seq<T>, skip: nat, take: nat)
    requires |Page(done, skip, take)| >= take
    ensures Page(done + more, skip, take) == Page(done, skip, take)
  {
  }

  /** `pageByTier`: the rows of one page and the number of rows in all. */
  method PageByTier<T>(tiers: seq<seq<string>>, skip: nat, take: nat, found: Found<T>) returns (rows: seq<T>, total: nat)
    ensures rows == Page(EndToEnd(tiers, found), skip, take)
    ensures total == |EndToEnd(tiers, found)|
  {
    var counts := seq(|tiers|, i requires 0 <= i < |tiers| => CountOf(tiers[i], found));
    rows := [];
    var offset: nat := skip;
    var i := 0;
    while i < |tiers| && |rows| < take
      invariant 0 <= i <= |tiers|
      invariant Reached(EndToEnd(tiers[..i], found), skip, take, rows, offset)
    {
      ghost var done := EndToEnd(tiers[..i], found);
      assert tiers[..i + 1][..i] == tiers[..i];
      assert EndToEnd(tiers[..i + 1], found) == done + RowsOf(tiers[i], found);
      i := i + 1;
      if offset >= counts[i - 1] {
        NextTierSkipped(done, RowsOf(tiers[i - 1], found), skip, take, rows, offset);
        offset := offset - counts[i - 1];
        continue;
      }
      NextTierRead(done, RowsOf(tiers[i - 1], found), skip, take, rows, offset);
      rows := rows + Page(found(tiers[i - 1]), offset, take - |rows|);
      offset := 0;
    }
    RestOfTiers(tiers, i, found);
    if i < |tiers| {
      ghost var rest := RestOf(tiers, i, found);
      FullPage(EndToEnd(tiers[..i], found), rest, skip, take);
    }
    total := SumOf(counts);
    TotalIsLength(tiers, found);
  }

  ghost function RestOf<T>(tiers: seq<seq<string>>, i: nat, found: Found<T>): seq<T>
    requires i <= |tiers|
  {
    EndToEnd(tiers[i..], found)
  }

  lemma {:induction false} RestOfTiers<T>(tiers: seq<seq<string>>, i: nat, found: Found<T>)
    requires i <= |tiers|
    ensures EndToEnd(tiers, found) == EndToEnd(tiers[..i], found) + RestOf(tiers, i, found)
  {
    if i == |tiers| {
      assert tiers[..i] == tiers && tiers[i..] == [];
    } else {
      var before := tiers[..|tiers| - 1];
      RestOfTiers(before, i, found);
      assert before[..i] == tiers[..i];
      assert tiers[i..][..|tiers| - i - 1] == before[i..];
    }
  }

  function SumOf(counts: seq<nat>): nat {
    if counts == [] then 0 else SumOf(counts[..|counts| - 1]) + counts[|counts| - 1]
  }

  lemma {:induction false} TotalIsLength<T>(tiers: seq<seq<string>>, found: Found<T>)
    ensures SumOf(seq(|tiers|, i requires 0 <= i < |tiers| => CountOf(tiers[i], found))) == |EndToEnd(tiers, found)|
  {
    if tiers != [] {
      var before := tiers[..|tiers| - 1];
      TotalIsLength(before, found);
      var counts := seq(|tiers|, i requires 0 <= i < |tiers| => CountOf(tiers[i], found));
      assert counts[..|tiers| - 1] == seq(|before|, i requires 0 <= i < |before| => CountOf(before[i], found));
    }
  }

  // ------------------------------------------------- all the pages

  /** The first `n` pages of `take`, one after the other. */
  function Pages<T>(s: seq<T>, take: nat, n: nat): seq<T> {
    if n == 0 then [] else Pages(s, take, n - 1) + Page(s, (n - 1) * take, take)
  }

  lemma {:induction false} PagesArePrefix<T>(s: seq<T>, take: nat, n: nat)
    ensures Pages(s, take, n) == s[..Least(n * take, |s|)]
  {
    if n > 0 {
      PagesArePrefix(s, take, n - 1);
      assert (n - 1) * take + take == n * take;
      var a, b := Least((n - 1) * take, |s|), Least(n * take, |s|);
      assert s[..a] + s[a..b] == s[..b];
    }
  }

  /** Pages of a positive size, read until they run out, list every row once: all of the
      rows that have every word in their own text, in the caller's order, and then all of
      those that are there for their sector. */
  lemma PagesListEveryRow<T>(hits: seq<Hit>, take: nat, n: nat, found: Found<T>)
    requires take > 0 && n * take >= |EndToEnd(SplitTiers(hits), found)|
    ensures Pages(EndToEnd(SplitTiers(hits), found), take, n) == RowsOf(Ids(hits, true), found) + RowsOf(Ids(hits, false), found)
  {
    var tiers := SplitTiers(hits);
    var all := EndToEnd(tiers, found);
    PagesArePrefix(all, take, n);
    assert tiers[..1] == [Ids(hits, true)] && tiers[..1][..0] == [];
    assert EndToEnd(tiers[..1], found) == RowsOf(Ids(hits, true), found);
    assert all == RowsOf(Ids(hits, true), found) + RowsOf(Ids(hits, false), found);
    assert all[..|all|] == all;
  }

  // ------------------------------------------------- the query's hits

  /** What the database returns for the search: the rows the clause holds of, each with
      the value of the other clause. */
  ghost predicate Answers(hits: seq<Hit>, table: map<string, SqlClause.Row>, clauses: TextSearch.Clauses, filters: seq<SqlClause.Test>) {
    var where_ := SqlClause.Parse(TextSearch.Where(filters, clauses.matching));
    var flag := SqlClause.Parse(clauses.direct);
    where_.Some? && flag.Some? &&
    forall id, direct :: Hit(id, direct) in hits <==>
      id in table && SqlClause.Holds(where_.value, table[id]) && direct == SqlClause.Holds(flag.value, table[id])
  }

  /** The first tier holds exactly the rows that have every word in their own text, the
      second exactly those that match for a sector. */
  lemma TiersOfSearch(hits: seq<Hit>, table: map<string, SqlClause.Row>, words: seq<string>, exact: nat,
                      sectors: seq<seq<string>>, filters: seq<SqlClause.Test>, id: string)
    requires words != [] && Answers(hits, table, TextSearch.SearchClauses(words, exact, sectors), filters)
    ensures id in SplitTiers(hits)[0] <==>
              id in table && TextSearch.AllPass(filters, table[id]) && TextSearch.Direct(table[id], words, exact)
    ensures id in SplitTiers(hits)[1] <==>
              id in table && TextSearch.AllPass(filters, table[id]) &&
              TextSearch.Matching(table[id], words, exact, sectors) && !TextSearch.Direct(table[id], words, exact)
  {
    InTier(hits, true, id);
    InTier(hits, false, id);
    if id in table {
      TextSearch.MatchMeans(words, exact, sectors, filters, table[id]);
      TextSearch.DirectMeans(words, exact, sectors, [], table[id]);
      if TextSearch.Direct(table[id], words, exact) {
        TextSearch.DirectImpliesMatching(table[id], words, exact, sectors);
      }
    }
  }
}
