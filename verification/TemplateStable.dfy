/** A variable is sanitized twice: by `freeTextVar`, and by the provider mapper on the way
    out. When the second time leaves it as it is, for any value at all. */
module TemplateStable {
  import opened TemplateText
  import opened TemplateVar

  // ------------------------------------------------- a text cut after a half

  predicate EndsWith(p: Text, h: Unit) { p != [] && p[|p| - 1] == h }

  predicate StartsLow(r: Text) { r != [] && Low(r[0]) }

  lemma {:induction false} TrimStartConcat(p: Text, h: Unit, r: Text)
    requires High(h) && EndsWith(p, h)
    ensures EndsWith(TrimStart(p), h) && TrimStart(p + r) == TrimStart(p) + r
  {
    if White(p[0]) {
      TrimStartConcat(p[1..], h, r);
      assert (p + r)[1..] == p[1..] + r;
    }
  }

  lemma {:induction false} TrimEndConcat(p: Text, h: Unit, r: Text)
    requires High(h) && EndsWith(p, h)
    ensures TrimEnd(p + r) == p + TrimEnd(r) && (StartsLow(TrimEnd(r)) <==> StartsLow(r))
  {
    if r == [] {
      assert p + r == p;
    } else if White(r[|r| - 1]) {
      TrimEndConcat(p, h, r[..|r| - 1]);
      assert (p + r)[..|p + r| - 1] == p + r[..|r| - 1];
    }
  }

  lemma UnifiedStart(r: Text)
    ensures StartsLow(Unified(r)) <==> StartsLow(r)
  {
  }

  lemma {:induction false} UnifiedConcat(p: Text, h: Unit, r: Text)
    requires High(h) && EndsWith(p, h)
    ensures EndsWith(Unified(p), h) && Unified(p + r) == Unified(p) + Unified(r)
  {
    var t := p + r;
    if p[0] == CR {
      var n := if p[1] == LF then 2 else 1;
      assert t[n..] == p[n..] + r;
      UnifiedConcat(p[n..], h, r);
      Regroup([LF], Unified(p[n..]), Unified(r));
    } else {
      assert t[1..] == p[1..] + r;
      if |p| > 1 {
        UnifiedConcat(p[1..], h, r);
      } else {
        assert p[1..] + r == r;
      }
      Regroup([p[0]], Unified(p[1..]), Unified(r));
    }
  }

  lemma {:induction false} StrippedConcat(p: Text, h: Unit, r: Text)
    requires High(h) && EndsWith(p, h) && !StartsLow(r)
    ensures EndsWith(Stripped(p), h) && Stripped(p + r) == Stripped(p) + Stripped(r)
  {
    assert !Dropped(h);
    hide Format, Control, Dropped;
    var t := p + r;
    if |p| == 1 {
      assert t[1..] == r && p[1..] == [];
    } else if High(p[0]) && Low(p[1]) {
      assert t[2..] == p[2..] + r && t[..2] == p[..2];
      StrippedConcat(p[2..], h, r);
      Regroup(p[..2], Stripped(p[2..]), Stripped(r));
    } else {
      assert t[1..] == p[1..] + r;
      StrippedConcat(p[1..], h, r);
      Regroup([p[0]], Stripped(p[1..]), Stripped(r));
    }
  }

  lemma {:induction false} CollapsedConcat(p: Text, h: Unit, r: Text, tabs: bool)
    requires High(h) && EndsWith(p, h)
    ensures EndsWith(Collapsed(p, tabs), h) && Collapsed(p + r, tabs) == Collapsed(p, tabs) + Collapsed(r, tabs)
  {
    if |p| == 1 {
      assert (p + r)[1..] == r && p[1..] == [];
    } else {
      CollapsedConcat(p[1..], h, r, tabs);
      assert (p + r)[1..] == p[1..] + r;
    }
  }

  lemma {:induction false} NewlinesConcat(p: Text, h: Unit, r: Text)
    requires High(h) && EndsWith(p, h)
    ensures Newlines(p + r) == Newlines(p) < |p|
  {
    if p[0] == LF {
      NewlinesConcat(p[1..], h, r);
      assert (p + r)[1..] == p[1..] + r;
    }
  }

  lemma {:induction false} SeparatedConcat(p: Text, h: Unit, r: Text)
    requires High(h) && EndsWith(p, h)
    ensures EndsWith(Separated(p), h) && Separated(p + r) == Separated(p) + Separated(r)
  {
    NewlinesConcat(p, h, r);
    var t := p + r;
    var n := if Newlines(p) >= 2 then Newlines(p) else 1;
    var first := if Newlines(p) >= 2 then [SPACE, DOT, SPACE] else [p[0]];
    assert t[n..] == p[n..] + r;
    assert Separated(p) == first + Separated(p[n..]);
    assert Separated(t) == first + Separated(t[n..]);
    if |p| > n {
      SeparatedConcat(p[n..], h, r);
    } else {
      assert p[n..] + r == r;
    }
    Regroup(first, Separated(p[n..]), Separated(r));
  }

  lemma FlattenedConcat(p: Text, h: Unit, r: Text)
    requires High(h) && EndsWith(p, h)
    ensures EndsWith(Flattened(p), h) && Flattened(p + r) == Flattened(p) + Flattened(r)
  {
    CollapsedConcat(p, h, r, true);
    var q, t := Collapsed(p, true), Collapsed(r, true);
    SeparatedConcat(q, h, t);
    assert OneLine(Separated(q) + Separated(t)) == OneLine(Separated(q)) + OneLine(Separated(t));
    CollapsedConcat(OneLine(Separated(q)), h, OneLine(Separated(t)), false);
  }

  /** What becomes of a text that follows a half. */
  function Following(r: Text): Text {
    TrimEnd(Flattened(Stripped(Unified(TrimEnd(r)))))
  }

  /** After a half that stays a half, the passes treat the rest of the text by itself. */
  lemma SanitizedConcat(p: Text, h: Unit, r: Text)
    requires High(h) && EndsWith(p, h) && !StartsLow(r)
    ensures EndsWith(Sanitized(p), h) && Sanitized(p + r) == Sanitized(p) + Following(r)
  {
    hide Flattened;
    TrimStartConcat(p, h, r);
    var q, t := TrimStart(p), TrimEnd(r);
    TrimEndConcat(q, h, r);
    UnifiedStart(t);
    UnifiedConcat(q, h, t);
    StrippedConcat(Unified(q), h, Unified(t));
    var v, w := Stripped(Unified(q)), Stripped(Unified(t));
    FlattenedConcat(v, h, w);
    TrimStartConcat(Flattened(v), h, Flattened(w));
    TrimEndConcat(TrimStart(Flattened(v)), h, Flattened(w));
  }

  lemma TrimEndKeeps(r: Text, j: nat)
    requires j < |r| && !White(r[j])
    ensures j < |TrimEnd(r)| && TrimEnd(r)[..j] == r[..j] && TrimEnd(r)[j] == r[j]
  {
    var n := TrimEndPrefix(r);
    assert j < n;
  }

  lemma FlattenedHead(s: Text)
    requires StartsLow(s)
    ensures Flattened(s) != [] && Flattened(s)[0] == s[0]
  {
    CollapsedHead(s, true);
    SeparatedHead(Collapsed(s, true));
    CollapsedHead(OneLine(Separated(Collapsed(s, true))), false);
  }

  /** What is removed leaves the other half to follow. */
  lemma FollowingHead(r: Text, j: nat)
    requires j < |r| && Low(r[j]) && Removed(r[..j])
    ensures Following(r) != [] && Following(r)[0] == r[j]
  {
    var t := TrimEnd(r);
    TrimEndKeeps(r, j);
    LeadIs(t, j);
    LeadUnified(t);
    UnifiedNoReturn(t);
    LeadStripped(Unified(t));
    FlattenedHead(Stripped(Unified(t)));
    TrimEndKeeps(Flattened(Stripped(Unified(t))), 0);
  }

  // ------------------------------------------------- where the halves end up

  /** Halves that come together in the text are neighbours in the output, just where the
      text up to the first half ends. */
  lemma JoinEndsUp(text: Text, i: nat, j: nat)
    requires HalvesJoin(text, i, j)
    ensures var p, s := Sanitized(text[..i + 1]), Sanitized(text);
            0 < |p| < |s| && p == s[..|p|] && Format(s[|p| - 1], s[|p|])
  {
    hide Sanitized, Following;
    var p, r := text[..i + 1], text[i + 1..];
    assert text == p + r;
    assert r[..j - i - 1] == text[i + 1..j] && r[j - i - 1] == text[j];
    SanitizedConcat(p, text[i], r);
    FollowingHead(r, j - i - 1);
  }

  /** The first half that meets its other. */
  lemma {:induction false} FirstJoin(text: Text, a: nat, b: nat) returns (i: nat, j: nat)
    requires HalvesJoin(text, a, b)
    ensures HalvesJoin(text, i, j) && !Joins(text[..i + 1])
    decreases |text|
  {
    hide Removed, Format;
    i, j := a, b;
    var p := text[..a + 1];
    if c, d :| HalvesJoin(p, c, d) {
      i, j := FirstJoin(p, c, d);
      assert text[0..a + 1] == p && p[..i + 1] == text[..i + 1];
      JoinInSlice(text, 0, a + 1, i, j);
    }
  }

  lemma JoinIsKept(text: Text, n: nat, i: nat, j: nat)
    requires n <= |Sanitized(text)| && HalvesJoin(text, i, j) && |Sanitized(text[..i + 1])| < n
    ensures !NoFormat(Sanitized(text)[..n])
  {
    hide Sanitized, Format;
    JoinEndsUp(text, i, j);
    var kept, q := Sanitized(text)[..n], |Sanitized(text[..i + 1])| - 1;
    assert Format(kept[q], kept[q + 1]);
  }

  lemma NoneBefore(text: Text, n: nat, i: nat, j: nat)
    requires HalvesJoin(text, i, j) && n <= |Sanitized(text[..i + 1])| && !Joins(text[..i + 1])
    ensures n <= |Sanitized(text)| && NoFormat(Sanitized(text)[..n])
  {
    hide Sanitized, Format, Joins;
    JoinEndsUp(text, i, j);
    SanitizedIsNormalIff(text[..i + 1]);
    var p := Sanitized(text[..i + 1]);
    assert Sanitized(text)[..n] == p[..n];
  }

  /** The first `n` units of the output hold no format character exactly when no halves
      come together among them. */
  lemma KeptIff(text: Text, n: nat)
    requires n <= |Sanitized(text)|
    ensures NoFormat(Sanitized(text)[..n]) <==> forall i, j :: HalvesJoin(text, i, j) ==> n <= |Sanitized(text[..i + 1])|
  {
    hide Sanitized, NoFormat;
    forall i, j | HalvesJoin(text, i, j) && |Sanitized(text[..i + 1])| < n
      ensures !NoFormat(Sanitized(text)[..n])
    {
      JoinIsKept(text, n, i, j);
    }
    if a, b :| HalvesJoin(text, a, b) {
      var i, j := FirstJoin(text, a, b);
      if n <= |Sanitized(text[..i + 1])| {
        NoneBefore(text, n, i, j);
      }
    } else {
      NothingJoined(text, n);
    }
  }

  lemma NothingJoined(text: Text, n: nat)
    requires n <= |Sanitized(text)| && !Joins(text)
    ensures NoFormat(Sanitized(text)[..n])
  {
    SanitizedIsNormalIff(text);
  }

  // ------------------------------------------------- the variable

  /** For every value: sanitizing the variable again on the way out leaves it as it is
      exactly when every two halves the value brings together come together past the cut.
      It never takes it over its budget. */
  lemma VariableIsStableIff(value: Value, fallback: Text, max: int)
    requires max >= 1 && Normal(fallback) && 0 < |fallback| <= max
    ensures var text, v := TextOf(value), FreeTextVar(value, fallback, max);
            && (Sanitized(v) == v <==>
                  forall i, j :: HalvesJoin(text, i, j) ==>
                    |Kept(Sanitized(text), max)| <= |Sanitized(text[..i + 1])|)
            && (Normal(v) <==> Sanitized(v) == v)
            && |Sanitized(v)| <= max
  {
    var text, v := TextOf(value), FreeTextVar(value, fallback, max);
    var s := Sanitized(text);
    SanitizedIsNormalIff(text);
    VariableFits(value, fallback, max);
    var n := KeptPrefix(s, max);
    KeptIff(text, n);
    if OnlySeparators(s) {
      LeftAloneIff(fallback);
    } else if |s| > max {
      PrefixThenEllipsis(s, n);
      LeftAloneIff(v);
    } else {
      LeftAloneIff(v);
    }
  }

  lemma KeptPrefix(s: Text, max: int) returns (n: nat)
    requires max >= 1 && Edges(s)
    ensures n <= |s| && Kept(s, max) == s[..n] && (n > 0 ==> !White(s[n - 1]))
  {
    if |s| <= max {
      n := |s|;
    } else {
      var cut;
      cut, n := CappedShape(s, max);
    }
  }

  /** While the value fits its budget, or has no halves to bring together, as no Unicode
      string has, nothing depends on the cut. */
  lemma VariableIsStable(value: Value, fallback: Text, max: int)
    requires max >= 1 && Normal(fallback) && 0 < |fallback| <= max
    ensures var text, v := TextOf(value), FreeTextVar(value, fallback, max);
            && (|Sanitized(text)| <= max ==> (Sanitized(v) == v <==> !Joins(text)))
            && (!Joins(text) ==> Sanitized(v) == v)
            && (WellFormed(text) ==> !Joins(text))
  {
    var text := TextOf(value);
    VariableIsStableIff(value, fallback, max);
    if WellFormed(text) {
      WellFormedApart(text);
    }
    if i, j :| HalvesJoin(text, i, j) {
      JoinEndsUp(text, i, j);
    }
  }

  /** The variable of a value that is not one, by default: a tag character, which the
      second pass takes out. An empty variable is sent, where the fallback should be. */
  lemma BrokenVariableIsEmptied()
    ensures var v := FreeTextVar(Given([0xDB40, 0x200D, 0xDC01]), [65], 600);
            v == [0xDB40, 0xDC01] && Sanitized(v) == []
  {
    BrokenStringNeedsTwoPasses();
    var s: Text := [0xDB40, 0xDC01];
    assert s[0] != DOT && !White(s[0]);
  }
}
