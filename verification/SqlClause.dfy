/** Boolean SQL as far as the search clauses use it: tests joined by AND and OR, with
    parentheses. AND binds tighter than OR. A test is whatever the database decides
    about one row. */
module SqlClause {
  import opened Basics

  /** The tests a search makes on a row, and any other filter beside them. */
  datatype Test =
    | FuzzyLike(word: string)
    | ExactLike(field: nat, word: string)
    | SimilarWord(word: string)
    | SameRoot(word: string)
    | InSector(categories: seq<string>)
    | Filter(name: string)

  datatype Token = Leaf(test: Test) | And | Or | Open | Close

  type Sql = seq<Token>

  datatype Expr = Is(test: Test) | Conj(left: Expr, right: Expr) | Disj(left: Expr, right: Expr)

  type Row = Test -> bool

  predicate Holds(e: Expr, row: Row) {
    match e
    case Is(test) => row(test)
    case Conj(l, r) => Holds(l, row) && Holds(r, row)
    case Disj(l, r) => Holds(l, row) || Holds(r, row)
  }

  // ------------------------------------------------- parsing

  datatype Parsed = Parsed(expr: Expr, rest: Sql)

  function ParsePrimary(s: Sql): (r: Option<Parsed>)
    ensures r.Some? ==> |r.value.rest| < |s|
    decreases |s|, 0
  {
    if s == [] then None
    else if s[0].Leaf? then Some(Parsed(Is(s[0].test), s[1..]))
    else if s[0] == Open then
      var inner := ParseOr(s[1..]);
      if inner.Some? && inner.value.rest != [] && inner.value.rest[0] == Close then
        Some(Parsed(inner.value.expr, inner.value.rest[1..]))
      else
        None
    else None
  }

  function ParseAnd(s: Sql): (r: Option<Parsed>)
    ensures r.Some? ==> |r.value.rest| < |s|
    decreases |s|, 1
  {
    var left := ParsePrimary(s);
    if left.None? || left.value.rest == [] || left.value.rest[0] != And then left
    else
      var right := ParseAnd(left.value.rest[1..]);
      if right.None? then None else Some(Parsed(Conj(left.value.expr, right.value.expr), right.value.rest))
  }

  function ParseOr(s: Sql): (r: Option<Parsed>)
    ensures r.Some? ==> |r.value.rest| < |s|
    decreases |s|, 2
  {
    var left := ParseAnd(s);
    if left.None? || left.value.rest == [] || left.value.rest[0] != Or then left
    else
      var right := ParseOr(left.value.rest[1..]);
      if right.None? then None else Some(Parsed(Disj(left.value.expr, right.value.expr), right.value.rest))
  }

  /** The whole text as one condition. */
  function Parse(s: Sql): Option<Expr> {
    var r := ParseOr(s);
    if r.Some? && r.value.rest == [] then Some(r.value.expr) else None
  }

  // ------------------------------------------------- joining

  /** `Prisma.join`, which refuses an empty list. */
  function Join(parts: seq<Sql>, separator: Token): Sql
    requires parts != []
  {
    if |parts| == 1 then parts[0] else parts[0] + [separator] + Join(parts[1..], separator)
  }

  function ConjAll(es: seq<Expr>): Expr
    requires es != []
  {
    if |es| == 1 then es[0] else Conj(es[0], ConjAll(es[1..]))
  }

  function DisjAll(es: seq<Expr>): Expr
    requires es != []
  {
    if |es| == 1 then es[0] else Disj(es[0], DisjAll(es[1..]))
  }

  lemma {:induction false} ConjAllHolds(es: seq<Expr>, row: Row)
    requires es != []
    ensures Holds(ConjAll(es), row) <==> forall i :: 0 <= i < |es| ==> Holds(es[i], row)
  {
    if |es| > 1 {
      ConjAllHolds(es[1..], row);
      assert forall i :: 1 <= i < |es| ==> es[i] == es[1..][i - 1];
    }
  }

  lemma {:induction false} DisjAllHolds(es: seq<Expr>, row: Row)
    requires es != []
    ensures Holds(DisjAll(es), row) <==> exists i :: 0 <= i < |es| && Holds(es[i], row)
  {
    if |es| > 1 {
      DisjAllHolds(es[1..], row);
      if Holds(DisjAll(es[1..]), row) {
        var i :| 0 <= i < |es[1..]| && Holds(es[1..][i], row);
        assert Holds(es[i + 1], row);
      }
      if i :| 0 <= i < |es| && Holds(es[i], row) {
        assert i > 0 ==> es[i] == es[1..][i - 1];
      }
    }
  }

  /** A text that reads as one operand wherever it stands. */
  ghost predicate Primary(s: Sql, e: Expr) {
    forall rest: Sql :: ParsePrimary(s + rest) == Some(Parsed(e, rest))
  }

  ghost predicate Primaries(parts: seq<Sql>, es: seq<Expr>) {
    |parts| == |es| && forall i :: 0 <= i < |parts| ==> Primary(parts[i], es[i])
  }

  lemma LeafPrimary(test: Test)
    ensures Primary([Leaf(test)], Is(test))
  {
    forall rest: Sql
      ensures ParsePrimary([Leaf(test)] + rest) == Some(Parsed(Is(test), rest))
    {
      assert ([Leaf(test)] + rest)[1..] == rest;
    }
  }

  predicate Starts(rest: Sql, token: Token) { rest != [] && rest[0] == token }

  lemma Reads(s: Sql, e: Expr, rest: Sql)
    requires Primary(s, e)
    ensures ParsePrimary(s + rest) == Some(Parsed(e, rest))
  {
  }

  lemma AndStep(s: Sql, left: Parsed, more: Sql, right: Parsed)
    requires ParsePrimary(s) == Some(left) && left.rest == [And] + more && ParseAnd(more) == Some(right)
    ensures ParseAnd(s) == Some(Parsed(Conj(left.expr, right.expr), right.rest))
  {
    assert left.rest[1..] == more;
  }

  lemma OrStep(s: Sql, left: Parsed, more: Sql, right: Parsed)
    requires ParsePrimary(s) == Some(left) && left.rest == [Or] + more && ParseOr(more) == Some(right)
    ensures ParseOr(s) == Some(Parsed(Disj(left.expr, right.expr), right.rest))
  {
    assert left.rest[1..] == more;
    assert ParseAnd(s) == Some(left);
  }

  lemma OrEnd(s: Sql, only: Parsed)
    requires ParsePrimary(s) == Some(only) && !Starts(only.rest, And) && !Starts(only.rest, Or)
    ensures ParseOr(s) == Some(only)
  {
    assert ParseAnd(s) == Some(only);
  }

  lemma TailPrimaries(parts: seq<Sql>, es: seq<Expr>)
    requires parts != [] && Primaries(parts, es)
    ensures Primary(parts[0], es[0]) && Primaries(parts[1..], es[1..])
  {
    forall i | 0 <= i < |parts[1..]|
      ensures Primary(parts[1..][i], es[1..][i])
    {
      assert Primary(parts[i + 1], es[i + 1]);
    }
  }

  lemma JoinText(parts: seq<Sql>, separator: Token, rest: Sql)
    requires |parts| > 1
    ensures Join(parts, separator) + rest == parts[0] + ([separator] + (Join(parts[1..], separator) + rest))
  {
  }

  lemma {:induction false} AndChain(parts: seq<Sql>, es: seq<Expr>, rest: Sql)
    requires parts != [] && Primaries(parts, es) && !Starts(rest, And)
    ensures ParseAnd(Join(parts, And) + rest) == Some(Parsed(ConjAll(es), rest))
  {
    TailPrimaries(parts, es);
    if |parts| == 1 {
      Reads(parts[0], es[0], rest);
    } else {
      AndChain(parts[1..], es[1..], rest);
      var more := Join(parts[1..], And) + rest;
      Reads(parts[0], es[0], [And] + more);
      JoinText(parts, And, rest);
      AndStep(parts[0] + ([And] + more), Parsed(es[0], [And] + more), more, Parsed(ConjAll(es[1..]), rest));
    }
  }

  lemma {:induction false} OrChain(parts: seq<Sql>, es: seq<Expr>, rest: Sql)
    requires parts != [] && Primaries(parts, es) && !Starts(rest, And) && !Starts(rest, Or)
    ensures ParseOr(Join(parts, Or) + rest) == Some(Parsed(DisjAll(es), rest))
  {
    TailPrimaries(parts, es);
    if |parts| == 1 {
      Reads(parts[0], es[0], rest);
      OrEnd(parts[0] + rest, Parsed(es[0], rest));
    } else {
      OrChain(parts[1..], es[1..], rest);
      var more := Join(parts[1..], Or) + rest;
      Reads(parts[0], es[0], [Or] + more);
      JoinText(parts, Or, rest);
      OrStep(parts[0] + ([Or] + more), Parsed(es[0], [Or] + more), more, Parsed(DisjAll(es[1..]), rest));
    }
  }

  lemma InParentheses(s: Sql, inner: Sql, rest: Sql, e: Expr)
    requires s == [Open] + inner && ParseOr(inner) == Some(Parsed(e, [Close] + rest))
    ensures ParsePrimary(s) == Some(Parsed(e, rest))
  {
    assert s[1..] == inner && ([Close] + rest)[1..] == rest;
  }

  /** In parentheses, a chain of ORs is one operand. */
  lemma OrsInParentheses(parts: seq<Sql>, es: seq<Expr>)
    requires parts != [] && Primaries(parts, es)
    ensures Primary([Open] + Join(parts, Or) + [Close], DisjAll(es))
  {
    var s := [Open] + Join(parts, Or) + [Close];
    forall rest: Sql
      ensures ParsePrimary(s + rest) == Some(Parsed(DisjAll(es), rest))
    {
      OrChain(parts, es, [Close] + rest);
      assert s + rest == [Open] + (Join(parts, Or) + ([Close] + rest));
      InParentheses(s + rest, Join(parts, Or) + ([Close] + rest), rest, DisjAll(es));
    }
  }

  lemma OrOfTwo(a: Sql, e: Expr, b: Sql, f: Expr, after: Sql)
    requires Primary(a, e) && Primary(b, f) && Starts(after, Close)
    ensures ParseOr(a + ([Or] + (b + after))) == Some(Parsed(Disj(e, f), after))
  {
    Reads(b, f, after);
    OrEnd(b + after, Parsed(f, after));
    Reads(a, e, [Or] + (b + after));
    OrStep(a + ([Or] + (b + after)), Parsed(e, [Or] + (b + after)), b + after, Parsed(f, after));
  }

  lemma OrPair(a: Sql, e: Expr, b: Sql, f: Expr)
    requires Primary(a, e) && Primary(b, f)
    ensures Primary([Open] + a + [Or] + b + [Close], Disj(e, f))
  {
    var s := [Open] + a + [Or] + b + [Close];
    forall rest: Sql
      ensures ParsePrimary(s + rest) == Some(Parsed(Disj(e, f), rest))
    {
      OrOfTwo(a, e, b, f, [Close] + rest);
      var inner := a + ([Or] + (b + ([Close] + rest)));
      OrPairText(a, b, rest);
      InParentheses(s + rest, inner, rest, Disj(e, f));
    }
  }

  lemma OrPairText(a: Sql, b: Sql, rest: Sql)
    ensures [Open] + a + [Or] + b + [Close] + rest == [Open] + (a + ([Or] + (b + ([Close] + rest))))
  {
  }

  /** A chain of ANDs is read as their conjunction. */
  lemma AndsParse(parts: seq<Sql>, es: seq<Expr>)
    requires parts != [] && Primaries(parts, es)
    ensures Parse(Join(parts, And)) == Some(ConjAll(es))
  {
    AndChain(parts, es, []);
    assert Join(parts, And) + [] == Join(parts, And);
  }

  lemma {:induction false} JoinConcat(a: seq<Sql>, b: seq<Sql>, separator: Token)
    requires a != [] && b != []
    ensures Join(a + b, separator) == Join(a, separator) + [separator] + Join(b, separator)
  {
    if |a| == 1 {
      assert (a + b)[1..] == b;
    } else {
      JoinConcat(a[1..], b, separator);
      assert (a + b)[1..] == a[1..] + b;
    }
  }
}
