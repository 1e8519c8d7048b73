/** src/common/queries/text-search.ts: the clauses of a search, and the two tiers its rows
    fall into. Which words a search has and which sectors a word belongs to come from
    the caller; whether a row passes a test is the database's to say. */
module TextSearch {
  import opened Basics
  import opened SqlClause

  const FUZZY_MIN_LENGTH: nat := 4

  /** One word, in the item's own text; `exact` is the number of fields searched as written. */
  function OwnTests(word: string, exact: nat): (tests: seq<Test>)
    ensures tests != []
  {
    [FuzzyLike(word)] + seq(exact, i requires 0 <= i => ExactLike(i, word)) +
    if |word| >= FUZZY_MIN_LENGTH then [SimilarWord(word), SameRoot(word)] else []
  }

  function Leaves(tests: seq<Test>): seq<Sql> {
    seq(|tests|, i requires 0 <= i < |tests| => [Leaf(tests[i])])
  }

  function TextMatches(word: string, exact: nat): Sql {
    [Open] + Join(Leaves(OwnTests(word, exact)), Or) + [Close]
  }

  /** The sectors of word `i`, none when the list is too short. */
  function SectorsAt(sectors: seq<seq<string>>, i: nat): seq<string> {
    if i < |sectors| then sectors[i] else []
  }

  function OwnClauses(words: seq<string>, exact: nat): seq<Sql> {
    seq(|words|, i requires 0 <= i < |words| => TextMatches(words[i], exact))
  }

  function EitherClause(word: string, exact: nat, categories: seq<string>): Sql {
    if categories != [] then [Open] + TextMatches(word, exact) + [Or] + [Leaf(InSector(categories))] + [Close]
    else TextMatches(word, exact)
  }

  function EitherClauses(words: seq<string>, exact: nat, sectors: seq<seq<string>>): seq<Sql> {
    seq(|words|, i requires 0 <= i < |words| => EitherClause(words[i], exact, SectorsAt(sectors, i)))
  }

  datatype Clauses = Clauses(matching: Sql, direct: Sql)

  /** `searchClauses`; its callers have at least one word. */
  function SearchClauses(words: seq<string>, exact: nat, sectors: seq<seq<string>>): Clauses
    requires words != []
  {
    Clauses(Join(EitherClauses(words, exact, sectors), And), Join(OwnClauses(words, exact), And))
  }

  // ------------------------------------------------- what the clauses should mean

  /** The word is in the row's own text: as written in any field, or, when it is long
      enough, in another form in the short ones. */
  predicate InOwnText(row: Row, word: string, exact: nat) {
    row(FuzzyLike(word)) || (exists i: nat :: i < exact && row(ExactLike(i, word))) ||
    (|word| >= 4 && (row(SimilarWord(word)) || row(SameRoot(word))))
  }

  predicate Direct(row: Row, words: seq<string>, exact: nat) {
    forall i :: 0 <= i < |words| ==> InOwnText(row, words[i], exact)
  }

  predicate Matching(row: Row, words: seq<string>, exact: nat, sectors: seq<seq<string>>) {
    forall i :: 0 <= i < |words| ==>
      InOwnText(row, words[i], exact) || (i < |sectors| && sectors[i] != [] && row(InSector(sectors[i])))
  }

  // ------------------------------------------------- what they mean

  function Tests(tests: seq<Test>): seq<Expr> {
    seq(|tests|, i requires 0 <= i < |tests| => Is(tests[i]))
  }

  function OwnExpr(word: string, exact: nat): Expr {
    DisjAll(Tests(OwnTests(word, exact)))
  }

  function EitherExpr(word: string, exact: nat, categories: seq<string>): Expr {
    if categories != [] then Disj(OwnExpr(word, exact), Is(InSector(categories))) else OwnExpr(word, exact)
  }

  lemma LeavesPrimary(tests: seq<Test>)
    ensures Primaries(Leaves(tests), Tests(tests))
  {
    forall i | 0 <= i < |tests|
      ensures Primary(Leaves(tests)[i], Tests(tests)[i])
    {
      LeafPrimary(tests[i]);
    }
  }

  lemma TextMatchesPrimary(word: string, exact: nat)
    ensures Primary(TextMatches(word, exact), OwnExpr(word, exact))
  {
    LeavesPrimary(OwnTests(word, exact));
    OrsInParentheses(Leaves(OwnTests(word, exact)), Tests(OwnTests(word, exact)));
  }

  lemma EitherPrimary(word: string, exact: nat, categories: seq<string>)
    ensures Primary(EitherClause(word, exact, categories), EitherExpr(word, exact, categories))
  {
    TextMatchesPrimary(word, exact);
    if categories != [] {
      LeafPrimary(InSector(categories));
      OrPair(TextMatches(word, exact), OwnExpr(word, exact), [Leaf(InSector(categories))], Is(InSector(categories)));
    }
  }

  lemma OwnExprMeans(word: string, exact: nat, row: Row)
    ensures Holds(OwnExpr(word, exact), row) <==> InOwnText(row, word, exact)
  {
    var tests := OwnTests(word, exact);
    DisjAllHolds(Tests(tests), row);
    if InOwnText(row, word, exact) {
      if row(FuzzyLike(word)) {
        assert Holds(Tests(tests)[0], row);
      } else if i: nat :| i < exact && row(ExactLike(i, word)) {
        assert Holds(Tests(tests)[1 + i], row);
      } else {
        assert tests[1 + exact] == SimilarWord(word) && tests[2 + exact] == SameRoot(word);
        assert Holds(Tests(tests)[1 + exact], row) || Holds(Tests(tests)[2 + exact], row);
      }
    }
    if i :| 0 <= i < |tests| && Holds(Tests(tests)[i], row) {
      assert row(tests[i]);
      if 1 <= i <= exact {
        assert tests[i] == ExactLike(i - 1, word);
      }
    }
  }

  /** Filters of the caller, each a single test, in front of the clause. */
  predicate AllPass(filters: seq<Test>, row: Row) {
    forall i :: 0 <= i < |filters| ==> row(filters[i])
  }

  /** The text a query ends with: its own filters, then the clause. */
  function Where(filters: seq<Test>, clause: Sql): Sql {
    if filters == [] then clause else Join(Leaves(filters), And) + [And] + clause
  }

  function EitherExprs(words: seq<string>, exact: nat, sectors: seq<seq<string>>): seq<Expr> {
    seq(|words|, i requires 0 <= i < |words| => EitherExpr(words[i], exact, SectorsAt(sectors, i)))
  }

  function OwnExprs(words: seq<string>, exact: nat): seq<Expr> {
    seq(|words|, i requires 0 <= i < |words| => OwnExpr(words[i], exact))
  }

  lemma FiltersThenAll(filters: seq<Test>, es: seq<Expr>, row: Row)
    ensures (forall i :: 0 <= i < |Tests(filters) + es| ==> Holds((Tests(filters) + es)[i], row)) <==>
              AllPass(filters, row) && forall i :: 0 <= i < |es| ==> Holds(es[i], row)
  {
    var all := Tests(filters) + es;
    if forall i :: 0 <= i < |all| ==> Holds(all[i], row) {
      forall i | 0 <= i < |filters|
        ensures row(filters[i])
      {
        assert all[i] == Is(filters[i]);
      }
      forall i | 0 <= i < |es|
        ensures Holds(es[i], row)
      {
        assert all[|filters| + i] == es[i];
      }
    }
    if AllPass(filters, row) && forall i :: 0 <= i < |es| ==> Holds(es[i], row) {
      forall i | 0 <= i < |all|
        ensures Holds(all[i], row)
      {
        if i >= |filters| {
          assert all[i] == es[i - |filters|];
        }
      }
    }
  }

  lemma BothPrimaries(a: seq<Sql>, d: seq<Expr>, b: seq<Sql>, e: seq<Expr>)
    requires Primaries(a, d) && Primaries(b, e)
    ensures Primaries(a + b, d + e)
  {
    forall i | 0 <= i < |a + b|
      ensures Primary((a + b)[i], (d + e)[i])
    {
      if i >= |a| {
        assert Primary(b[i - |a|], e[i - |a|]);
      } else {
        assert Primary(a[i], d[i]);
      }
    }
  }

  lemma WhereParses(filters: seq<Test>, parts: seq<Sql>, es: seq<Expr>, row: Row)
    requires parts != [] && Primaries(parts, es)
    ensures var e := Parse(Where(filters, Join(parts, And)));
            e.Some? && (Holds(e.value, row) <==> AllPass(filters, row) && forall i :: 0 <= i < |es| ==> Holds(es[i], row))
  {
    if filters == [] {
      AndsParse(parts, es);
      ConjAllHolds(es, row);
    } else {
      LeavesPrimary(filters);
      JoinConcat(Leaves(filters), parts, And);
      BothPrimaries(Leaves(filters), Tests(filters), parts, es);
      AndsParse(Leaves(filters) + parts, Tests(filters) + es);
      ConjAllHolds(Tests(filters) + es, row);
      FiltersThenAll(filters, es, row);
    }
  }

  /** Read with SQL's precedence, alone or after any filters, the clause holds of a row
      exactly when the filters do and every word is in the row's own text or puts the
      row in one of its sectors. */
  lemma MatchMeans(words: seq<string>, exact: nat, sectors: seq<seq<string>>, filters: seq<Test>, row: Row)
    requires words != []
    ensures var e := Parse(Where(filters, SearchClauses(words, exact, sectors).matching));
            e.Some? && (Holds(e.value, row) <==> AllPass(filters, row) && Matching(row, words, exact, sectors))
  {
    var parts, es := EitherClauses(words, exact, sectors), EitherExprs(words, exact, sectors);
    forall i | 0 <= i < |words|
      ensures Primary(parts[i], es[i])
      ensures Holds(es[i], row) <==>
                InOwnText(row, words[i], exact) || (i < |sectors| && sectors[i] != [] && row(InSector(sectors[i])))
    {
      EitherPrimary(words[i], exact, SectorsAt(sectors, i));
      OwnExprMeans(words[i], exact, row);
    }
    WhereParses(filters, parts, es, row);
  }

  /** The same of the clause that puts a row in the first tier. */
  lemma DirectMeans(words: seq<string>, exact: nat, sectors: seq<seq<string>>, filters: seq<Test>, row: Row)
    requires words != []
    ensures var e := Parse(Where(filters, SearchClauses(words, exact, sectors).direct));
            e.Some? && (Holds(e.value, row) <==> AllPass(filters, row) && Direct(row, words, exact))
  {
    var parts, es := OwnClauses(words, exact), OwnExprs(words, exact);
    forall i | 0 <= i < |words|
      ensures Primary(parts[i], es[i])
      ensures Holds(es[i], row) <==> InOwnText(row, words[i], exact)
    {
      TextMatchesPrimary(words[i], exact);
      OwnExprMeans(words[i], exact, row);
    }
    WhereParses(filters, parts, es, row);
  }

  lemma DirectImpliesMatching(row: Row, words: seq<string>, exact: nat, sectors: seq<seq<string>>)
    requires Direct(row, words, exact)
    ensures Matching(row, words, exact, sectors)
  {
  }

  /** Why a word with a sector is put in parentheses: without them the clause for two
      words lets in a row that has only the first. */
  lemma ParenthesesNeeded(first: Test, second: Test, sector: Test, row: Row)
    requires row(first) && !row(second)
    ensures var open := [Leaf(first), Or, Leaf(sector), And, Leaf(second)];
            Parse(open).Some? && Holds(Parse(open).value, row)
  {
    var open := [Leaf(first), Or, Leaf(sector), And, Leaf(second)];
    var tail := [Leaf(sector), And, Leaf(second)];
    assert open[1..][1..] == tail && tail[1..][1..] == [Leaf(second)] && [Leaf(second)][1..] == [];
    assert ParsePrimary([Leaf(second)]) == Some(Parsed(Is(second), []));
    assert ParseAnd([Leaf(second)]) == Some(Parsed(Is(second), []));
    assert ParsePrimary(tail) == Some(Parsed(Is(sector), tail[1..]));
    assert ParseAnd(tail) == Some(Parsed(Conj(Is(sector), Is(second)), []));
    assert ParseOr(tail) == Some(Parsed(Conj(Is(sector), Is(second)), []));
    assert ParsePrimary(open) == Some(Parsed(Is(first), open[1..]));
    assert ParseAnd(open) == Some(Parsed(Is(first), open[1..]));
  }
}
