/** What sanitizing keeps of a text, the cap that follows it
    (src/common/utils/whatsapp-template-text.util.ts), and the variable built from both
    (`freeTextVar` in src/common/constants/whatsapp-templates.ts). */
module TemplateVar {
  import opened TemplateText

  // ------------------------------------------------- nothing that shows is lost

  /** A unit that shows: no white space, no control character, not the separator. */
  predicate Shows(u: Unit) { !White(u) && !Control(u) && u != DOT }

  function Shown(u: Unit): Text {
    if Shows(u) then [u] else []
  }

  function Visible(s: Text): Text {
    if s == [] then [] else Shown(s[0]) + Visible(s[1..])
  }

  lemma VisibleFirst(u: Unit, s: Text)
    ensures Visible([u] + s) == Shown(u) + Visible(s)
  {
    assert ([u] + s)[1..] == s;
  }

  lemma Regroup(x: Text, y: Text, z: Text)
    ensures x + (y + z) == (x + y) + z
  {
  }

  lemma {:induction false} VisibleConcat(a: Text, b: Text)
    ensures Visible(a + b) == Visible(a) + Visible(b)
  {
    if a == [] {
      assert a + b == b;
    } else {
      var first, rest := [a[0]], a[1..];
      assert a == first + rest;
      Regroup(first, rest, b);
      VisibleFirst(a[0], rest + b);
      VisibleConcat(rest, b);
      Regroup(Shown(a[0]), Visible(rest), Visible(b));
    }
  }

  lemma {:induction false} VisibleNone(s: Text)
    requires forall i :: 0 <= i < |s| ==> !Shows(s[i])
    ensures Visible(s) == []
  {
    if s != [] {
      VisibleNone(s[1..]);
    }
  }

  lemma TrimVisible(s: Text)
    ensures Visible(Trim(s)) == Visible(s)
  {
    var a, b := TrimSlice(s);
    assert s == s[..a] + s[a..b] + s[b..];
    VisibleConcat(s[..a] + s[a..b], s[b..]);
    VisibleConcat(s[..a], s[a..b]);
    VisibleNone(s[..a]);
    VisibleNone(s[b..]);
  }

  lemma {:induction false} CollapsedVisible(s: Text, tabs: bool)
    ensures Visible(Collapsed(s, tabs)) == Visible(s)
  {
    if s != [] {
      CollapsedVisible(s[1..], tabs);
      var c := Collapsed(s, tabs);
      if !(Blank(s[0], tabs) && |s| > 1 && Blank(s[1], tabs)) {
        assert c[1..] == Collapsed(s[1..], tabs);
      }
    }
  }

  lemma {:induction false} SeparatedVisible(s: Text)
    ensures Visible(Separated(s)) == Visible(s)
  {
    if s != [] {
      var n := Newlines(s);
      if n >= 2 {
        SeparatedVisible(s[n..]);
        assert s == s[..n] + s[n..];
        VisibleConcat(s[..n], s[n..]);
        VisibleNone(s[..n]);
        VisibleConcat([SPACE, DOT, SPACE], Separated(s[n..]));
        VisibleNone([SPACE, DOT, SPACE]);
      } else {
        SeparatedVisible(s[1..]);
        assert Separated(s)[1..] == Separated(s[1..]);
      }
    }
  }

  lemma {:induction false} OneLineVisible(s: Text)
    ensures Visible(OneLine(s)) == Visible(s)
  {
    if s != [] {
      OneLineVisible(s[1..]);
      assert OneLine(s)[1..] == OneLine(s[1..]);
    }
  }

  /** What shows of a text, format characters aside: whole code points and single halves. */
  function Content(s: Text): Text {
    if s == [] then []
    else if |s| > 1 && High(s[0]) && Low(s[1]) then (if Format(s[0], s[1]) then [] else s[..2]) + Content(s[2..])
    else Shown(s[0]) + Content(s[1..])
  }

  lemma {:induction false} StrippedContent(s: Text)
    ensures Visible(Stripped(s)) == Content(s)
  {
    hide Format;
    if s != [] {
      if |s| > 1 && High(s[0]) && Low(s[1]) {
        StrippedContent(s[2..]);
        VisibleConcat(s[..2], Stripped(s[2..]));
        assert s[..2] == [s[0]] + [s[1]];
      } else {
        StrippedContent(s[1..]);
        VisibleFirst(s[0], Stripped(s[1..]));
      }
    }
  }

  lemma {:induction false} ContentThenWhite(s: Text, w: Unit)
    requires White(w)
    ensures Content(s + [w]) == Content(s)
  {
    var t := s + [w];
    if s == [] {
      assert t[1..] == [];
    } else {
      if |s| > 1 && High(s[0]) && Low(s[1]) {
        ContentThenWhite(s[2..], w);
        assert t[2..] == s[2..] + [w] && t[..2] == s[..2];
      } else {
        ContentThenWhite(s[1..], w);
        assert t[1..] == s[1..] + [w];
      }
    }
  }

  lemma {:induction false} TrimEndContent(s: Text)
    ensures Content(TrimEnd(s)) == Content(s)
  {
    if s != [] && White(s[|s| - 1]) {
      ContentThenWhite(s[..|s| - 1], s[|s| - 1]);
      assert s[..|s| - 1] + [s[|s| - 1]] == s;
      TrimEndContent(s[..|s| - 1]);
    }
  }

  lemma {:induction false} TrimStartContent(s: Text)
    ensures Content(TrimStart(s)) == Content(s)
  {
    if s != [] && White(s[0]) {
      TrimStartContent(s[1..]);
    }
  }

  lemma UnifiedFirst(s: Text)
    requires s != [] && s[0] != CR
    ensures var u := Unified(s);
            u == [s[0]] + Unified(s[1..]) && u[1..] == Unified(s[1..])
  {
  }

  lemma {:induction false} UnifiedContent(s: Text)
    ensures Content(Unified(s)) == Content(s)
  {
    if s == [] {
    } else if s[0] == CR {
      UnifiedReturn(s);
      UnifiedContent(if |s| > 1 && s[1] == LF then s[2..] else s[1..]);
    } else if |s| > 1 && High(s[0]) && Low(s[1]) {
      UnifiedContent(s[2..]);
      UnifiedPair(s);
    } else {
      UnifiedContent(s[1..]);
      UnifiedUnit(s);
    }
  }

  lemma UnifiedReturn(s: Text)
    requires s != [] && s[0] == CR
    ensures var rest := if |s| > 1 && s[1] == LF then s[2..] else s[1..];
            Content(Unified(s)) == Content(Unified(rest)) &&
            Content(s) == Content(rest)
  {
    var rest := if |s| > 1 && s[1] == LF then s[2..] else s[1..];
    var u := Unified(s);
    assert u == [LF] + Unified(rest) && u[1..] == Unified(rest);
    if |s| > 1 && s[1] == LF {
      assert s[1..][1..] == s[2..];
    }
  }

  lemma UnifiedPair(s: Text)
    requires |s| > 1 && High(s[0]) && Low(s[1]) && Content(Unified(s[2..])) == Content(s[2..])
    ensures Content(Unified(s)) == Content(s)
  {
    var u := Unified(s);
    UnifiedFirst(s);
    UnifiedFirst(s[1..]);
    assert s[1..][1..] == s[2..];
    assert u[2..] == Unified(s[2..]) && u[..2] == s[..2];
  }

  lemma UnifiedUnit(s: Text)
    requires s != [] && s[0] != CR && !(|s| > 1 && High(s[0]) && Low(s[1]))
    requires Content(Unified(s[1..])) == Content(s[1..])
    ensures Content(Unified(s)) == Content(s)
  {
    var u := Unified(s);
    UnifiedFirst(s);
    assert |s| > 1 ==> u[1] == if s[1] == CR then LF else s[1];
  }

  /** For every string: what shows of it, its format characters aside, comes out whole
      and in order. */
  lemma NothingVisibleLost(text: Text)
    ensures Visible(Sanitized(text)) == Content(text)
  {
    TrimStartContent(text);
    TrimEndContent(TrimStart(text));
    UnifiedContent(Trim(text));
    var s := Cleaned(text);
    StrippedContent(Prepared(text));
    CollapsedVisible(s, true);
    SeparatedVisible(Collapsed(s, true));
    OneLineVisible(Separated(Collapsed(s, true)));
    CollapsedVisible(OneLine(Separated(Collapsed(s, true))), false);
    TrimVisible(Flattened(s));
  }

  // ------------------------------------------------- lines and paragraphs

  function LineFeeds(n: nat): Text { seq(n, _ => LF) }

  lemma {:induction false} SeparatedPrefix(p: Text, rest: Text)
    requires forall i :: 0 <= i < |p| ==> p[i] != LF
    ensures Separated(p + rest) == p + Separated(rest)
  {
    if p == [] {
      assert p + rest == rest;
    } else {
      SeparatedPrefix(p[1..], rest);
      assert (p + rest)[1..] == p[1..] + rest;
      assert Separated(p + rest) == [p[0]] + Separated(p[1..] + rest);
    }
  }

  lemma {:induction false} NewlinesThen(n: nat, q: Text)
    requires q != [] ==> q[0] != LF
    ensures Newlines(LineFeeds(n) + q) == n
  {
    if n == 0 {
      assert LineFeeds(0) + q == q;
    } else {
      NewlinesThen(n - 1, q);
      assert (LineFeeds(n) + q)[1..] == LineFeeds(n - 1) + q;
    }
  }

  lemma LinesShow(p: Text, q: Text, n: nat)
    requires Normal(p) && Normal(q) && p != [] && q != [] && n >= 1
    ensures Sanitized(p + LineFeeds(n) + q) == p + (if n == 1 then [SPACE] else [SPACE, DOT, SPACE]) + q
  {
    var s := p + LineFeeds(n) + q;
    JoinClean(p, q, n);
    UnifiedClean(s);
    StrippedClean(s);
    CollapsedClean(s, true);
    var between := if n == 1 then [SPACE] else [SPACE, DOT, SPACE];
    SeparatedJoin(p, q, n);
    var line := p + between + q;
    assert OneLine(Separated(s)) == line;
    JoinSingle(p, between, q);
    CollapsedClean(line, false);
    TrimClean(line);
  }

  /** The newlines in a text of CRs and LFs: a CR LF is one, as is either alone. */
  function NewlinesIn(b: Text): nat {
    if b == [] then 0
    else if b[0] == CR && |b| > 1 && b[1] == LF then 1 + NewlinesIn(b[2..])
    else 1 + NewlinesIn(b[1..])
  }

  lemma {:induction false} UnifiedAfter(p: Text, rest: Text)
    requires forall i :: 0 <= i < |p| ==> p[i] != CR
    ensures Unified(p + rest) == p + Unified(rest)
  {
    if p == [] {
      assert p + rest == rest;
    } else {
      UnifiedAfter(p[1..], rest);
      assert (p + rest)[1..] == p[1..] + rest;
      Regroup([p[0]], p[1..], Unified(rest));
    }
  }

  lemma OneLineFeed(n: nat)
    ensures LineFeeds(n + 1) == [LF] + LineFeeds(n)
  {
  }

  lemma {:induction false} UnifiedBreaks(b: Text, q: Text)
    requires forall i :: 0 <= i < |b| ==> b[i] == CR || b[i] == LF
    requires q != [] && q[0] != LF && forall i :: 0 <= i < |q| ==> q[i] != CR
    ensures Unified(b + q) == LineFeeds(NewlinesIn(b)) + q
  {
    if b == [] {
      UnifiedClean(q);
      assert b + q == q && LineFeeds(0) + q == q;
    } else {
      var k := if b[0] == CR && |b| > 1 && b[1] == LF then 2 else 1;
      assert (b + q)[k..] == b[k..] + q;
      UnifiedBreaks(b[k..], q);
      assert Unified(b + q) == [LF] + Unified(b[k..] + q);
      OneLineFeed(NewlinesIn(b[k..]));
      Regroup([LF], LineFeeds(NewlinesIn(b[k..])), q);
    }
  }

  /** Two texts in normal form, the second on a new line or in a new paragraph, written in
      any mix of CRs and LFs: one newline is a space, more are a separator that shows. */
  lemma ParagraphsShow(p: Text, b: Text, q: Text)
    requires Normal(p) && Normal(q) && p != [] && q != [] && b != []
    requires forall i :: 0 <= i < |b| ==> b[i] == CR || b[i] == LF
    ensures Sanitized(p + b + q) == p + (if NewlinesIn(b) == 1 then [SPACE] else [SPACE, DOT, SPACE]) + q
  {
    var n := NewlinesIn(b);
    assert q[0] != LF && forall i :: 0 <= i < |p| ==> p[i] != CR;
    assert forall i :: 0 <= i < |q| ==> q[i] != CR;
    TrimClean(p + b + q);
    Regroup(p, b, q);
    UnifiedAfter(p, b + q);
    UnifiedBreaks(b, q);
    Regroup(p, LineFeeds(n), q);
    LinesPrepared(p, q, n);
    LinesShow(p, q, n);
  }

  lemma LinesPrepared(p: Text, q: Text, n: nat)
    requires Normal(p) && Normal(q) && p != [] && q != [] && n >= 1
    ensures Prepared(p + LineFeeds(n) + q) == p + LineFeeds(n) + q
  {
    JoinClean(p, q, n);
    UnifiedClean(p + LineFeeds(n) + q);
  }

  lemma JoinClean(p: Text, q: Text, n: nat)
    requires Normal(p) && Normal(q) && p != [] && q != [] && n >= 1
    ensures var s := p + LineFeeds(n) + q;
            && (forall i :: 0 <= i < |s| ==> !Dropped(s[i]) && s[i] != CR && s[i] != TAB)
            && NoFormat(s) && SingleBlanks(s, true) && Trim(s) == s
  {
    var s := p + LineFeeds(n) + q;
    forall i | 0 <= i < |s| - 1
      ensures !Format(s[i], s[i + 1]) && !(Blank(s[i], true) && Blank(s[i + 1], true))
    {
      if i + 1 < |p| {
        assert s[i] == p[i] && s[i + 1] == p[i + 1];
      } else if i >= |p| + n {
        var j := i - |p| - n;
        assert s[i] == q[j] && s[i + 1] == q[j + 1];
      } else if i >= |p| {
        assert s[i] == LF;
      } else {
        assert s[i + 1] == LF;
      }
    }
    TrimClean(s);
  }

  lemma SeparatedJoin(p: Text, q: Text, n: nat)
    requires Normal(p) && Normal(q) && p != [] && q != [] && n >= 1
    ensures Separated(p + LineFeeds(n) + q) == p + (if n == 1 then [LF] else [SPACE, DOT, SPACE]) + q
  {
    var rest := LineFeeds(n) + q;
    assert p + LineFeeds(n) + q == p + rest;
    SeparatedPrefix(p, rest);
    NewlinesThen(n, q);
    SeparatedClean(q);
    assert rest[n..] == q;
    if n == 1 {
      assert rest[1..] == q;
    }
  }

  lemma JoinSingle(p: Text, between: Text, q: Text)
    requires Normal(p) && Normal(q) && p != [] && q != []
    requires between == [SPACE] || between == [SPACE, DOT, SPACE]
    ensures var s := p + between + q;
            SingleBlanks(s, false) && Edges(s) && forall i :: 0 <= i < |s| ==> s[i] != TAB
  {
    var s := p + between + q;
    forall i | 0 <= i < |s| - 1
      ensures !(Blank(s[i], false) && Blank(s[i + 1], false))
    {
      if i + 1 < |p| {
        assert s[i] == p[i] && s[i + 1] == p[i + 1];
      } else if i >= |p| + |between| {
        var j := i - |p| - |between|;
        assert s[i] == q[j] && s[i + 1] == q[j + 1];
      }
    }
  }

  // ------------------------------------------------- the cap

  /** `s.slice(0, n)`: a negative end counts from the back. */
  function Slice(s: Text, n: int): Text {
    if n >= 0 then s[..if n < |s| then n else |s|] else s[..if |s| + n >= 0 then |s| + n else 0]
  }

  /** Where the last space is, or -1. */
  function LastSpace(s: Text): (i: int)
    ensures -1 <= i < |s| && (i >= 0 ==> s[i] == SPACE)
    ensures forall j :: i < j < |s| ==> s[j] != SPACE
  {
    if s == [] then -1 else if s[|s| - 1] == SPACE then |s| - 1 else LastSpace(s[..|s| - 1])
  }

  /** At a space in the last fifth of the budget if there is one, else wherever the budget
      ends. The comparison with four fifths is done without fractions. */
  function CutAt(hard: Text, budget: int): Text {
    if 5 * LastSpace(hard) >= 4 * budget && LastSpace(hard) >= 0 then hard[..LastSpace(hard)]
    else if 5 * LastSpace(hard) >= 4 * budget then Slice(hard, -1)
    else hard
  }

  /** What of the text goes before the ellipsis. */
  function Kept(text: Text, max: int): Text {
    if |text| <= max then text else TrimEnd(CutAt(Slice(text, max - 1), max - 1))
  }

  /** `capTemplateVar` */
  function Capped(text: Text, max: int): Text {
    if |text| <= max then text else Kept(text, max) + [ELLIPSIS]
  }

  /** Capping stays within `max` unless `max` leaves no room for the ellipsis. */
  lemma CappedLengthIff(text: Text, max: int)
    ensures |Capped(text, max)| <= max <==> max >= 1 || |text| <= max
  {
    var hard := Slice(text, max - 1);
    var n := TrimEndPrefix(CutAt(hard, max - 1));
  }

  /** The result is the text, or the text up to some point and an ellipsis: the budget
      cut off at its last space when that keeps four fifths of it, then less any white
      space at its end. */
  lemma CappedShape(text: Text, max: int) returns (cut: nat, n: nat)
    requires max >= 1 && |text| > max
    ensures n <= cut <= max - 1 && Kept(text, max) == text[..n] && Capped(text, max) == text[..n] + [ELLIPSIS]
    ensures forall i :: n <= i < cut ==> White(text[i])
    ensures n > 0 ==> !White(text[n - 1])
    ensures cut == max - 1 || (text[cut] == SPACE && 5 * cut >= 4 * (max - 1))
    ensures cut == max - 1 ==> forall i :: 0 <= i < max - 1 && text[i] == SPACE ==> 5 * i < 4 * (max - 1)
  {
    var hard := Slice(text, max - 1);
    assert hard == text[..max - 1];
    var last := LastSpace(hard);
    cut := if 5 * last >= 4 * (max - 1) then last else max - 1;
    assert CutAt(hard, max - 1) == text[..cut];
    n := TrimEndPrefix(text[..cut]);
    assert text[..cut][..n] == text[..n];
    forall i | n <= i < cut
      ensures White(text[i])
    {
      assert text[i] == text[..cut][i];
    }
    forall i | cut == max - 1 && 0 <= i < max - 1 && text[i] == SPACE
      ensures 5 * i < 4 * (max - 1)
    {
      assert hard[i] == SPACE;
    }
  }

  /** With no room for the ellipsis the text is cut from its end, by one more unit for each
      that is wanting, then at its last space; where there is none a last unit goes too,
      unless `max` is 0. */
  lemma CappedBelowOne(text: Text, max: int) returns (hard: nat, cut: nat)
    requires max <= 0 && |text| > max && text != []
    ensures hard == (if |text| + max - 1 >= 0 then |text| + max - 1 else 0) && cut <= hard
    ensures Capped(text, max) == TrimEnd(text[..cut]) + [ELLIPSIS]
    ensures cut < hard && text[cut] == SPACE ==> forall i :: cut < i < hard ==> text[i] != SPACE
    ensures (exists i :: 0 <= i < hard && text[i] == SPACE) ==> cut < hard && text[cut] == SPACE
    ensures (forall i :: 0 <= i < hard ==> text[i] != SPACE) ==> cut == if max == 0 || hard == 0 then hard else hard - 1
  {
    hard := if |text| + max - 1 >= 0 then |text| + max - 1 else 0;
    var h := Slice(text, max - 1);
    assert h == text[..hard];
    var last := LastSpace(h);
    cut := if last >= 0 then last else if max == 0 || hard == 0 then hard else hard - 1;
    assert h[..cut] == text[..cut];
    assert forall i :: 0 <= i < hard ==> h[i] == text[i];
    assert CutAt(h, max - 1) == text[..cut];
  }

  /** Capping keeps the normal form, even when it cuts a character in two. */
  lemma CappedNormal(text: Text, max: int)
    requires Normal(text) && max >= 1
    ensures Normal(Capped(text, max)) && |Capped(text, max)| <= max
    ensures Sanitized(Capped(text, max)) == Capped(text, max)
    ensures text != [] ==> Capped(text, max) != []
  {
    CappedLengthIff(text, max);
    if |text| > max {
      var cut, n := CappedShape(text, max);
      PrefixThenEllipsis(text, n);
    }
    SanitizedNormal(Capped(text, max));
  }

  lemma PrefixThenEllipsis(text: Text, n: nat)
    requires NoControl(text) && SingleBlanks(text, false) && Edges(text)
    requires n <= |text| && (n > 0 ==> !White(text[n - 1]))
    ensures var t := text[..n] + [ELLIPSIS];
            NoControl(t) && SingleBlanks(t, false) && Edges(t) && (NoFormat(t) <==> NoFormat(text[..n]))
  {
    var p, t := text[..n], text[..n] + [ELLIPSIS];
    assert forall i :: 0 <= i < n ==> t[i] == p[i] == text[i];
    forall i | 0 <= i < |t| - 1
      ensures !(Blank(t[i], false) && Blank(t[i + 1], false))
      ensures Format(t[i], t[i + 1]) ==> i + 1 < n && Format(p[i], p[i + 1])
    {
      assert i + 1 < n ==> !(Blank(text[i], false) && Blank(text[i + 1], false));
    }
    forall i | 0 <= i < n - 1
      ensures Format(p[i], p[i + 1]) == Format(t[i], t[i + 1])
    {
    }
  }

  // ------------------------------------------------- the variable

  /** Nothing but separators and white space. */
  predicate OnlySeparators(s: Text) {
    forall i :: 0 <= i < |s| ==> s[i] == DOT || White(s[i])
  }

  /** `flattenForTemplateVariable` */
  function FlattenedForVariable(text: Text): Text {
    if OnlySeparators(Sanitized(text)) then [] else Sanitized(text)
  }

  datatype Value = Null | Undefined | Given(text: Text)

  /** `value ?? ''` */
  function TextOf(value: Value): Text {
    if value.Given? then value.text else []
  }

  /** `freeTextVar` */
  function FreeTextVar(value: Value, fallback: Text, max: int): Text {
    var capped := Capped(FlattenedForVariable(TextOf(value)), max);
    if capped == [] then fallback else capped
  }

  /** For every value: with a fallback that is itself a proper variable, the variable is
      never empty and never over its budget. */
  lemma VariableFits(value: Value, fallback: Text, max: int)
    requires max >= 1 && Normal(fallback) && 0 < |fallback| <= max
    ensures 0 < |FreeTextVar(value, fallback, max)| <= max
  {
    CappedLengthIff(FlattenedForVariable(TextOf(value)), max);
  }

  lemma {:induction false} VisibleSome(s: Text, i: nat)
    requires i < |s| && Shows(s[i])
    ensures Visible(s) != []
  {
    if i > 0 {
      VisibleSome(s[1..], i - 1);
    }
  }

  lemma ShowsIff(s: Text)
    requires NoControl(s)
    ensures Visible(s) == [] <==> OnlySeparators(s)
  {
    if OnlySeparators(s) {
      VisibleNone(s);
    } else {
      var i :| 0 <= i < |s| && s[i] != DOT && !White(s[i]);
      VisibleSome(s, i);
    }
  }

  lemma SanitizedShows(text: Text)
    ensures OnlySeparators(Sanitized(text)) <==> Content(text) == []
  {
    NothingVisibleLost(text);
    SanitizedIsNormalIff(text);
    ShowsIff(Sanitized(text));
  }

  /** What the variable is, for every value: the fallback exactly when nothing of the value
      shows; the sanitized text, with all that shows of the value, when that fits. */
  lemma VariableIs(value: Value, fallback: Text, max: int)
    requires max >= 1
    ensures var text := if value.Given? then value.text else [];
            var s, v := Sanitized(text), FreeTextVar(value, fallback, max);
            && (Content(text) == [] ==> v == fallback)
            && (Content(text) != [] && |s| <= max ==> v == s && Visible(v) == Content(text))
            && (Content(text) != [] && |s| > max ==> v == Capped(s, max) && v != [])
  {
    SanitizedShows(TextOf(value));
    NothingVisibleLost(TextOf(value));
  }

  /** When it does not fit: cut as the cap cuts, with a beginning of all that shows of the
      value before the ellipsis. */
  lemma VariableIsCut(value: Value, fallback: Text, max: int) returns (cut: nat, n: nat)
    requires max >= 1 && Content(TextOf(value)) != [] && |Sanitized(TextOf(value))| > max
    ensures var s := Sanitized(TextOf(value));
            && n <= cut <= max - 1 && FreeTextVar(value, fallback, max) == s[..n] + [ELLIPSIS]
            && (forall i :: n <= i < cut ==> White(s[i])) && (n > 0 ==> !White(s[n - 1]))
            && (cut == max - 1 || (s[cut] == SPACE && 5 * cut >= 4 * (max - 1)))
            && Visible(s[..n]) <= Content(TextOf(value))
  {
    var s := Sanitized(TextOf(value));
    VariableIs(value, fallback, max);
    NothingVisibleLost(TextOf(value));
    cut, n := CappedShape(s, max);
    VisibleConcat(s[..n], s[n..]);
    assert s == s[..n] + s[n..];
  }
}
