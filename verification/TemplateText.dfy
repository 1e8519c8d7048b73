/** src/common/utils/whatsapp-template-text.util.ts: text on its way into a variable of a
    WhatsApp template. A string is a sequence of UTF-16 code units, well formed or not,
    and the tables of white space, control and format characters are those of Unicode 15. */
module TemplateText {

  type Unit = u: int | 0 <= u < 0x1_0000

  type Text = seq<Unit>

  const TAB: Unit := 9
  const LF: Unit := 10
  const CR: Unit := 13
  const SPACE: Unit := 32
  const DOT: Unit := 0xB7
  const ELLIPSIS: Unit := 0x2026

  /** What `trim` removes and `\s` matches. */
  predicate White(u: Unit) {
    9 <= u <= 13 || u == 32 || u == 0xA0 || u == 0x1680 || 0x2000 <= u <= 0x200A || u == 0x2028 || u == 0x2029 ||
    u == 0x202F || u == 0x205F || u == 0x3000 || u == 0xFEFF
  }

  /** Categories Cc and Cf among the characters of one code unit. */
  predicate Control(u: Unit) {
    u <= 0x1F || 0x7F <= u <= 0x9F || u == 0xAD || 0x600 <= u <= 0x605 || u == 0x61C || u == 0x6DD || u == 0x70F ||
    0x890 <= u <= 0x891 || u == 0x8E2 || u == 0x180E || 0x200B <= u <= 0x200F || 0x202A <= u <= 0x202E ||
    0x2060 <= u <= 0x2064 || 0x2066 <= u <= 0x206F || u == 0xFEFF || 0xFFF9 <= u <= 0xFFFB
  }

  predicate High(u: Unit) { 0xD800 <= u <= 0xDBFF }

  predicate Low(u: Unit) { 0xDC00 <= u <= 0xDFFF }

  /** Category Cf among the characters of two code units. */
  predicate Format(high: Unit, low: Unit) {
    High(high) && Low(low) &&
    var c := 0x1_0000 + (high - 0xD800) * 0x400 + (low - 0xDC00);
    c == 0x1_10BD || c == 0x1_10CD || 0x1_3430 <= c <= 0x1_343F || 0x1_BCA0 <= c <= 0x1_BCA3 ||
    0x1_D173 <= c <= 0x1_D17A || c == 0xE_0001 || 0xE_0020 <= c <= 0xE_007F
  }

  // ------------------------------------------------- the passes

  function TrimStart(s: Text): Text {
    if s != [] && White(s[0]) then TrimStart(s[1..]) else s
  }

  function TrimEnd(s: Text): Text {
    if s != [] && White(s[|s| - 1]) then TrimEnd(s[..|s| - 1]) else s
  }

  function Trim(s: Text): Text { TrimEnd(TrimStart(s)) }

  /** CR LF, and CR alone, become LF. */
  function Unified(s: Text): Text {
    if s == [] then []
    else if s[0] == CR then [LF] + Unified(if |s| > 1 && s[1] == LF then s[2..] else s[1..])
    else [s[0]] + Unified(s[1..])
  }

  /** A control character the third pass takes out. */
  predicate Dropped(u: Unit) { Control(u) && u != LF && u != TAB }

  /** Control and format characters go, read code point by code point. */
  function Stripped(s: Text): Text {
    if s == [] then []
    else if |s| > 1 && High(s[0]) && Low(s[1]) then
      if Format(s[0], s[1]) then Stripped(s[2..]) else s[..2] + Stripped(s[2..])
    else if Dropped(s[0]) then Stripped(s[1..])
    else [s[0]] + Stripped(s[1..])
  }

  predicate Blank(u: Unit, tabs: bool) { u == SPACE || (tabs && u == TAB) }

  /** A run of spaces, and of tabs when `tabs`, becomes one space. */
  function Collapsed(s: Text, tabs: bool): Text {
    if s == [] then []
    else if !Blank(s[0], tabs) then [s[0]] + Collapsed(s[1..], tabs)
    else if |s| > 1 && Blank(s[1], tabs) then Collapsed(s[1..], tabs)
    else [SPACE] + Collapsed(s[1..], tabs)
  }

  /** How many newlines the text starts with. */
  function Newlines(s: Text): (n: nat)
    ensures n <= |s| && forall i :: 0 <= i < n ==> s[i] == LF
  {
    if s != [] && s[0] == LF then 1 + Newlines(s[1..]) else 0
  }

  /** Two newlines or more become a visible separator. */
  function Separated(s: Text): Text {
    if s == [] then []
    else if Newlines(s) >= 2 then [SPACE, DOT, SPACE] + Separated(s[Newlines(s)..])
    else [s[0]] + Separated(s[1..])
  }

  /** The newlines that are left become spaces. */
  function OneLine(s: Text): Text {
    seq(|s|, i requires 0 <= i < |s| => if s[i] == LF then SPACE else s[i])
  }

  function Prepared(text: Text): Text { Unified(Trim(text)) }

  function Flattened(s: Text): Text {
    Collapsed(OneLine(Separated(Collapsed(s, true))), false)
  }

  /** `sanitizeTemplateVariable`: the passes in their order. */
  function Sanitized(text: Text): Text {
    Trim(Flattened(Stripped(Prepared(text))))
  }

  // ------------------------------------------------- the normal form

  /** No two code units in a row that make a format character. */
  predicate NoFormat(s: Text) {
    forall i :: 0 <= i < |s| - 1 ==> !Format(s[i], s[i + 1])
  }

  predicate SingleBlanks(s: Text, tabs: bool) {
    forall i :: 0 <= i < |s| - 1 ==> !(Blank(s[i], tabs) && Blank(s[i + 1], tabs))
  }

  predicate Edges(s: Text) {
    s != [] ==> !White(s[0]) && !White(s[|s| - 1])
  }

  predicate NoControl(s: Text) {
    forall i :: 0 <= i < |s| ==> !Control(s[i])
  }

  /** No newline, tab, control or format character, no two adjacent spaces, no white
      space at either end. */
  predicate Normal(s: Text) {
    NoControl(s) && NoFormat(s) && SingleBlanks(s, false) && Edges(s)
  }

  // ------------------------------------------------- what each pass yields

  lemma {:induction false} TrimStartSuffix(s: Text) returns (n: nat)
    ensures n <= |s| && TrimStart(s) == s[n..] && (TrimStart(s) != [] ==> !White(s[n]))
    ensures forall i :: 0 <= i < n ==> White(s[i])
  {
    if s != [] && White(s[0]) {
      n := TrimStartSuffix(s[1..]);
      n := n + 1;
    } else {
      n := 0;
    }
  }

  lemma {:induction false} TrimEndPrefix(s: Text) returns (n: nat)
    ensures n <= |s| && TrimEnd(s) == s[..n] && (n > 0 ==> !White(s[n - 1]))
    ensures forall i :: n <= i < |s| ==> White(s[i])
  {
    if s != [] && White(s[|s| - 1]) {
      n := TrimEndPrefix(s[..|s| - 1]);
      assert s[..|s| - 1][..n] == s[..n];
    } else {
      n := |s|;
    }
  }

  /** Trimming takes out a stretch of the text with white space on both sides of it. */
  lemma TrimSlice(s: Text) returns (a: nat, b: nat)
    ensures a <= b <= |s| && Trim(s) == s[a..b] && Edges(Trim(s))
    ensures forall i :: (0 <= i < a || b <= i < |s|) ==> White(s[i])
  {
    a := TrimStartSuffix(s);
    var n := TrimEndPrefix(TrimStart(s));
    b := a + n;
    assert s[a..][..n] == s[a..b];
    forall i | b <= i < |s|
      ensures White(s[i])
    {
      assert s[i] == s[a..][i - a];
    }
  }

  lemma {:induction false} StrippedControls(s: Text)
    ensures forall i :: 0 <= i < |Stripped(s)| ==> !Dropped(Stripped(s)[i])
  {
    if s != [] {
      if |s| > 1 && High(s[0]) && Low(s[1]) {
        StrippedControls(s[2..]);
      } else {
        StrippedControls(s[1..]);
      }
    }
  }

  /** The first two units, and the rest. */
  lemma SplitFormat(s: Text)
    requires s != []
    ensures NoFormat(s) <==> (|s| > 1 ==> !Format(s[0], s[1])) && NoFormat(s[1..])
  {
    if |s| > 1 && !Format(s[0], s[1]) && NoFormat(s[1..]) {
      forall i | 0 <= i < |s| - 1
        ensures !Format(s[i], s[i + 1])
      {
        if i > 0 {
          assert s[i] == s[1..][i - 1] && s[i + 1] == s[1..][i];
        }
      }
    }
    if NoFormat(s) {
      forall i | 0 <= i < |s[1..]| - 1
        ensures !Format(s[1..][i], s[1..][i + 1])
      {
        assert s[1..][i] == s[i + 1] && s[1..][i + 1] == s[i + 2];
      }
    }
  }

  lemma {:induction false} CollapsedHead(s: Text, tabs: bool)
    ensures var c := Collapsed(s, tabs);
            |c| <= |s| && (s == [] <==> c == []) && (s != [] ==> c[0] == if Blank(s[0], tabs) then SPACE else s[0])
  {
    if s != [] {
      CollapsedHead(s[1..], tabs);
    }
  }

  /** Collapsing adds nothing but spaces and leaves no two blanks in a row. */
  lemma {:induction false} CollapsedBlanks(s: Text, tabs: bool)
    ensures var c := Collapsed(s, tabs);
            SingleBlanks(c, tabs) && forall i :: 0 <= i < |c| ==> (c[i] in s && !Blank(c[i], tabs)) || c[i] == SPACE
  {
    if s != [] {
      CollapsedBlanks(s[1..], tabs);
      CollapsedHead(s[1..], tabs);
    }
  }

  /** It brings no two surrogates together or apart. */
  lemma {:induction false} CollapsedFormat(s: Text, tabs: bool)
    ensures NoFormat(Collapsed(s, tabs)) <==> NoFormat(s)
  {
    if s != [] {
      CollapsedFormat(s[1..], tabs);
      CollapsedHead(s[1..], tabs);
      SplitFormat(s);
      var c := Collapsed(s, tabs);
      if !(Blank(s[0], tabs) && |s| > 1 && Blank(s[1], tabs)) {
        SplitFormat(c);
        assert c[1..] == Collapsed(s[1..], tabs);
      }
    }
  }

  lemma {:induction false} SeparatedHead(s: Text)
    ensures var t := Separated(s);
            (s == [] <==> t == []) && (s != [] ==> t[0] == s[0] || (s[0] == LF && t[0] == SPACE))
  {
  }

  /** Separating brings in spaces and dots only. */
  lemma {:induction false} SeparatedUnits(s: Text)
    ensures forall u :: u in Separated(s) ==> u in s || u == SPACE || u == DOT
  {
    if s != [] {
      var n := if Newlines(s) >= 2 then Newlines(s) else 1;
      SeparatedUnits(s[n..]);
      forall u | u in Separated(s)
        ensures u in s || u == SPACE || u == DOT
      {
        assert u in Separated(s[n..]) || u == s[0] || u == SPACE || u == DOT;
        assert u in s[n..] ==> u in s;
      }
    }
  }

  lemma SeparatorFormat(rest: Text)
    ensures NoFormat([SPACE, DOT, SPACE] + rest) <==> NoFormat(rest)
  {
    var t := [SPACE, DOT, SPACE] + rest;
    assert t[1..] == [DOT, SPACE] + rest && t[1..][1..] == [SPACE] + rest && ([SPACE] + rest)[1..] == rest;
    SplitFormat(t);
    SplitFormat(t[1..]);
    SplitFormat([SPACE] + rest);
  }

  /** It brings no two surrogates together or apart. */
  lemma {:induction false} SeparatedFormat(s: Text)
    ensures NoFormat(Separated(s)) <==> NoFormat(s)
  {
    if s != [] {
      var t, n := Separated(s), Newlines(s);
      if n >= 2 {
        SeparatedFormat(s[n..]);
        DropNewlines(s, n);
        SeparatorFormat(Separated(s[n..]));
      } else {
        SeparatedFormat(s[1..]);
        SeparatedHead(s[1..]);
        SplitFormat(s);
        SplitFormat(t);
        assert t[1..] == Separated(s[1..]);
      }
    }
  }

  lemma {:induction false} DropNewlines(s: Text, n: nat)
    requires n <= |s| && forall i :: 0 <= i < n ==> s[i] == LF
    ensures NoFormat(s) <==> NoFormat(s[n..])
  {
    if n > 0 {
      SplitFormat(s);
      DropNewlines(s[1..], n - 1);
      assert s[1..][n - 1..] == s[n..];
    }
  }

  /** On one line: a newline is no surrogate, and neither is the space it becomes. */
  lemma OneLineText(s: Text)
    requires forall i :: 0 <= i < |s| ==> !Dropped(s[i]) && s[i] != TAB
    ensures NoControl(OneLine(s)) && (NoFormat(OneLine(s)) <==> NoFormat(s))
  {
    var t := OneLine(s);
    forall i | 0 <= i < |s| - 1
      ensures Format(t[i], t[i + 1]) == Format(s[i], s[i + 1])
    {
    }
  }

  lemma CollapsedControl(s: Text, tabs: bool)
    ensures (forall i :: 0 <= i < |s| ==> !Dropped(s[i])) ==>
              forall i :: 0 <= i < |Collapsed(s, tabs)| ==> !Dropped(Collapsed(s, tabs)[i]) && !(tabs && Collapsed(s, tabs)[i] == TAB)
    ensures NoControl(s) ==> NoControl(Collapsed(s, tabs))
  {
    CollapsedBlanks(s, tabs);
  }

  lemma SeparatedControl(s: Text)
    requires forall i :: 0 <= i < |s| ==> !Dropped(s[i]) && s[i] != TAB
    ensures forall i :: 0 <= i < |Separated(s)| ==> !Dropped(Separated(s)[i]) && Separated(s)[i] != TAB
  {
    SeparatedUnits(s);
    var t := Separated(s);
    forall i | 0 <= i < |t|
      ensures !Dropped(t[i]) && t[i] != TAB
    {
      assert t[i] in t;
    }
  }

  lemma FlattenedText(s: Text)
    requires forall i :: 0 <= i < |s| ==> !Dropped(s[i])
    ensures var t := Flattened(s);
            NoControl(t) && SingleBlanks(t, false) && (NoFormat(t) <==> NoFormat(s))
  {
    var blanks := Collapsed(s, true);
    CollapsedControl(s, true);
    CollapsedFormat(s, true);
    var separated := Separated(blanks);
    SeparatedControl(blanks);
    SeparatedFormat(blanks);
    var line := OneLine(separated);
    OneLineText(separated);
    CollapsedControl(line, false);
    CollapsedBlanks(line, false);
    CollapsedFormat(line, false);
  }

  /** A slice keeps what holds of every unit and every two neighbours; taking white
      space off the ends takes no surrogate. */
  lemma TrimKeeps(s: Text)
    ensures var t := Trim(s);
            && Edges(t) && |t| <= |s|
            && (NoControl(s) ==> NoControl(t))
            && (SingleBlanks(s, false) ==> SingleBlanks(t, false))
            && (NoFormat(t) <==> NoFormat(s))
  {
    var t := Trim(s);
    var a, b := TrimSlice(s);
    forall i | 0 <= i < |t|
      ensures t[i] == s[a + i]
    {
    }
    if NoFormat(t) {
      forall i | 0 <= i < |s| - 1
        ensures !Format(s[i], s[i + 1])
      {
        if a <= i && i + 1 < b {
          assert s[i] == t[i - a] && s[i + 1] == t[i - a + 1];
        }
      }
    }
    if NoFormat(s) {
      forall i | 0 <= i < |t| - 1
        ensures !Format(t[i], t[i + 1])
      {
        assert !Format(s[a + i], s[a + i + 1]);
      }
    }
    if SingleBlanks(s, false) {
      forall i | 0 <= i < |t| - 1
        ensures !(Blank(t[i], false) && Blank(t[i + 1], false))
      {
        assert !(Blank(s[a + i], false) && Blank(s[a + i + 1], false));
      }
    }
  }

  // ------------------------------------------------- halves that come together

  /** A control character that leaves nothing behind. A CR is one too, but becomes a LF. */
  predicate Vanishes(u: Unit) { Dropped(u) && u != CR }

  /** Nothing but control and format characters that leave nothing behind. */
  predicate Removed(s: Text) {
    if s == [] then true
    else if |s| > 1 && High(s[0]) && Low(s[1]) then Format(s[0], s[1]) && Removed(s[2..])
    else Vanishes(s[0]) && Removed(s[1..])
  }

  /** Two halves of a format character with nothing between them but characters that
      are taken out. Two halves side by side are not meant: they are taken out together. */
  predicate HalvesJoin(s: Text, i: int, j: int) {
    0 <= i && i + 1 < j < |s| && Format(s[i], s[j]) && Removed(s[i + 1..j])
  }

  predicate Joins(s: Text) {
    exists i, j :: 0 <= i < |s| && 0 <= j < |s| && HalvesJoin(s, i, j)
  }

  /** The same of the first unit and a later one. */
  predicate FirstJoins(s: Text) {
    exists j :: 1 < j < |s| && Format(s[0], s[j]) && Removed(s[1..j])
  }

  lemma JoinsFirst(s: Text)
    requires s != []
    ensures Joins(s) <==> FirstJoins(s) || Joins(s[1..])
  {
    var t := s[1..];
    if i, j :| HalvesJoin(s, i, j) && i > 0 {
      assert t[i - 1] == s[i] && t[j - 1] == s[j] && t[i..j - 1] == s[i + 1..j];
      assert HalvesJoin(t, i - 1, j - 1);
    }
    if i, j :| HalvesJoin(t, i, j) {
      assert t[i] == s[i + 1] && t[j] == s[j + 1] && t[i + 1..j] == s[i + 2..j + 1];
      assert HalvesJoin(s, i + 1, j + 1);
    }
    if j :| 1 < j < |s| && Format(s[0], s[j]) && Removed(s[1..j]) {
      assert s[0 + 1..j] == s[1..j];
      assert HalvesJoin(s, 0, j);
    }
  }

  /** How much of the text is removed before its first character that stays. */
  function Lead(s: Text): (n: nat)
    ensures n <= |s| && Removed(s[..n])
  {
    if s == [] then 0
    else if |s| > 1 && High(s[0]) && Low(s[1]) then
      if Format(s[0], s[1]) then
        var n := 2 + Lead(s[2..]);
        assert s[..n][2..] == s[2..][..n - 2];
        n
      else 0
    else if Vanishes(s[0]) then
      var n := 1 + Lead(s[1..]);
      assert s[..n][1..] == s[1..][..n - 1];
      n
    else 0
  }

  lemma {:induction false} LeadIs(s: Text, j: nat)
    requires j < |s| && Low(s[j]) && Removed(s[..j])
    ensures Lead(s) == j
  {
    if j > 0 {
      if |s| > 1 && High(s[0]) && Low(s[1]) {
        assert j > 1 && s[..j][2..] == s[2..][..j - 2];
        LeadIs(s[2..], j - 2);
      } else {
        assert s[..j][1..] == s[1..][..j - 1];
        LeadIs(s[1..], j - 1);
      }
    }
  }

  /** The first unit joins the first that stays, or none. */
  lemma FirstJoinsIff(s: Text)
    requires s != []
    ensures FirstJoins(s) <==> var n := Lead(s[1..]); 0 < n < |s| - 1 && Format(s[0], s[1 + n])
  {
    var t := s[1..];
    if j :| 1 < j < |s| && Format(s[0], s[j]) && Removed(s[1..j]) {
      assert t[j - 1] == s[j] && t[..j - 1] == s[1..j];
      LeadIs(t, j - 1);
    }
    var n := Lead(t);
    if 0 < n < |s| - 1 && Format(s[0], s[1 + n]) {
      assert t[..n] == s[1..1 + n];
    }
  }

  lemma {:induction false} LeadStripped(s: Text)
    requires forall i :: 0 <= i < |s| ==> s[i] != CR
    ensures Stripped(s) == [] <==> Lead(s) == |s|
    ensures Stripped(s) != [] ==> Stripped(s)[0] == s[Lead(s)]
  {
    if s != [] {
      if |s| > 1 && High(s[0]) && Low(s[1]) {
        LeadStripped(s[2..]);
      } else {
        LeadStripped(s[1..]);
      }
    }
  }

  /** The third pass brings two halves together exactly where the text joins them. */
  lemma {:induction false} StrippedJoinsIff(s: Text)
    requires forall i :: 0 <= i < |s| ==> s[i] != CR
    ensures NoFormat(Stripped(s)) <==> !Joins(s)
  {
    if s != [] {
      JoinsFirst(s);
      FirstJoinsIff(s);
      var t := Stripped(s);
      if |s| > 1 && High(s[0]) && Low(s[1]) {
        JoinsFirst(s[1..]);
        FirstJoinsIff(s[1..]);
        assert s[1..][1..] == s[2..];
        StrippedJoinsIff(s[2..]);
        if !Format(s[0], s[1]) {
          assert t[1..][1..] == Stripped(s[2..]);
          SplitFormat(t);
          SplitFormat(t[1..]);
        }
      } else {
        StrippedJoinsIff(s[1..]);
        LeadStripped(s[1..]);
        if !Dropped(s[0]) {
          assert t[1..] == Stripped(s[1..]);
          SplitFormat(t);
        }
      }
    }
  }

  /** Unifying the newlines keeps what is removed at the front, and what comes after. */
  lemma {:induction false} LeadUnified(s: Text)
    ensures var n, u := Lead(s), Unified(s);
            Lead(u) == n && n <= |u| && (n < |u| <==> n < |s|) &&
            (n < |s| ==> u[n] == if s[n] == CR then LF else s[n])
  {
    if s != [] && s[0] != CR {
      var u := Unified(s);
      assert u[1..] == Unified(s[1..]);
      assert |s| > 1 ==> u[1] == if s[1] == CR then LF else s[1];
      if |s| > 1 && High(s[0]) && Low(s[1]) {
        assert s[1..][1..] == s[2..] && u[2..] == Unified(s[2..]);
        LeadUnified(s[2..]);
      } else {
        LeadUnified(s[1..]);
      }
    }
  }

  /** A CR between two halves keeps them apart, before and after it becomes a LF. */
  lemma {:induction false} UnifiedJoinsIff(s: Text)
    ensures Joins(Unified(s)) <==> Joins(s)
  {
    if s != [] {
      var u := Unified(s);
      var rest := if s[0] == CR && |s| > 1 && s[1] == LF then s[2..] else s[1..];
      assert u[1..] == Unified(rest);
      UnifiedJoinsIff(rest);
      JoinsFirst(s);
      JoinsFirst(u);
      if s[0] == CR {
        if |s| > 1 && s[1] == LF {
          JoinsFirst(s[1..]);
          assert s[1..][1..] == s[2..];
        }
      } else {
        FirstJoinsIff(s);
        FirstJoinsIff(u);
        LeadUnified(s[1..]);
      }
    }
  }

  lemma {:induction false} UnifiedNoReturn(s: Text)
    ensures forall i :: 0 <= i < |Unified(s)| ==> Unified(s)[i] != CR
  {
    if s != [] {
      UnifiedNoReturn(if s[0] == CR && |s| > 1 && s[1] == LF then s[2..] else s[1..]);
    }
  }

  lemma SliceOfSlice(s: Text, a: nat, b: nat, i: nat, j: nat)
    requires a <= b <= |s| && i <= j <= b - a
    ensures s[a..b][i..j] == s[a + i..a + j]
  {
    assert forall k :: 0 <= k < j - i ==> s[a..b][i..j][k] == s[a + i..a + j][k];
  }

  lemma JoinInSlice(s: Text, a: nat, b: nat, i: nat, j: nat)
    requires a <= b <= |s| && i + 1 < j < b - a
    ensures HalvesJoin(s[a..b], i, j) <==> HalvesJoin(s, a + i, a + j)
  {
    SliceOfSlice(s, a, b, i + 1, j);
  }

  /** White space at the ends is no half, and lies between no two. */
  lemma TrimJoinsIff(s: Text)
    ensures Joins(Trim(s)) <==> Joins(s)
  {
    var a, b := TrimSlice(s);
    if i, j :| HalvesJoin(s, i, j) {
      assert a <= i && j < b;
      JoinInSlice(s, a, b, i - a, j - a);
    }
    if i, j :| HalvesJoin(s[a..b], i, j) {
      JoinInSlice(s, a, b, i, j);
    }
  }

  // ------------------------------------------------- the output is normal

  /** The text as pass three leaves it: its control and format characters are gone. */
  function Cleaned(text: Text): Text { Stripped(Prepared(text)) }

  lemma CleanedIff(text: Text)
    ensures NoFormat(Cleaned(text)) <==> !Joins(text)
  {
    TrimJoinsIff(text);
    UnifiedJoinsIff(Trim(text));
    UnifiedNoReturn(Trim(text));
    StrippedJoinsIff(Prepared(text));
  }

  /** The output is in normal form exactly when the text has no two halves of a format
      character to bring together; everything else about the form holds of any text. */
  lemma SanitizedIsNormalIff(text: Text)
    ensures NoControl(Sanitized(text)) && SingleBlanks(Sanitized(text), false) && Edges(Sanitized(text))
    ensures Normal(Sanitized(text)) <==> !Joins(text)
  {
    CleanedIff(text);
    StrippedControls(Prepared(text));
    FlattenedText(Cleaned(text));
    TrimKeeps(Flattened(Cleaned(text)));
  }

  // ------------------------------------------------- a second pass

  lemma {:induction false} UnifiedClean(s: Text)
    requires forall i :: 0 <= i < |s| ==> s[i] != CR
    ensures Unified(s) == s
  {
    if s != [] {
      UnifiedClean(s[1..]);
    }
  }

  lemma {:induction false} StrippedClean(s: Text)
    requires (forall i :: 0 <= i < |s| ==> !Dropped(s[i])) && NoFormat(s)
    ensures Stripped(s) == s
  {
    if s != [] {
      SplitFormat(s);
      if |s| > 1 && High(s[0]) && Low(s[1]) {
        SplitFormat(s[1..]);
        assert s[1..][1..] == s[2..];
        StrippedClean(s[2..]);
      } else {
        StrippedClean(s[1..]);
      }
    }
  }

  lemma {:induction false} CollapsedClean(s: Text, tabs: bool)
    requires SingleBlanks(s, tabs) && forall i :: 0 <= i < |s| ==> s[i] != TAB
    ensures Collapsed(s, tabs) == s
  {
    if s != [] {
      forall i | 0 <= i < |s[1..]| - 1
        ensures !(Blank(s[1..][i], tabs) && Blank(s[1..][i + 1], tabs))
      {
        assert s[1..][i] == s[i + 1] && s[1..][i + 1] == s[i + 2];
      }
      assert |s| > 1 ==> !(Blank(s[0], tabs) && Blank(s[0 + 1], tabs));
      CollapsedClean(s[1..], tabs);
    }
  }

  lemma {:induction false} SeparatedClean(s: Text)
    requires forall i :: 0 <= i < |s| ==> s[i] != LF
    ensures Separated(s) == s
  {
    if s != [] {
      SeparatedClean(s[1..]);
    }
  }

  lemma TrimClean(s: Text)
    requires Edges(s)
    ensures Trim(s) == s
  {
  }

  lemma FlattenedClean(t: Text)
    requires SingleBlanks(t, false) && forall i :: 0 <= i < |t| ==> t[i] != TAB && t[i] != LF
    ensures Flattened(t) == t
  {
    assert SingleBlanks(t, true);
    CollapsedClean(t, true);
    SeparatedClean(t);
    assert OneLine(t) == t;
    CollapsedClean(t, false);
  }

  lemma CleanedClean(t: Text)
    requires NoControl(t) && NoFormat(t) && Edges(t)
    ensures Cleaned(t) == t
  {
    TrimClean(t);
    UnifiedClean(t);
    StrippedClean(t);
  }

  lemma SanitizedNormal(t: Text)
    requires Normal(t)
    ensures Sanitized(t) == t
  {
    CleanedClean(t);
    FlattenedClean(t);
    TrimClean(t);
  }

  /** The units taken out of a text that has a format character in it. */
  lemma {:induction false} StrippedShorter(s: Text)
    ensures |Stripped(s)| <= |s|
    ensures !NoFormat(s) ==> |Stripped(s)| < |s|
  {
    if s != [] {
      SplitFormat(s);
      if |s| > 1 && High(s[0]) && Low(s[1]) {
        SplitFormat(s[1..]);
        assert s[1..][1..] == s[2..];
        StrippedShorter(s[2..]);
      } else {
        StrippedShorter(s[1..]);
      }
    }
  }

  lemma {:induction false} StrippedUnits(s: Text)
    ensures forall i :: 0 <= i < |Stripped(s)| ==> Stripped(s)[i] in s
  {
    if s != [] {
      if |s| > 1 && High(s[0]) && Low(s[1]) {
        StrippedUnits(s[2..]);
      } else {
        StrippedUnits(s[1..]);
      }
    }
  }

  /** A text with no control characters and its edges trimmed only gets shorter. */
  lemma SecondPassShortens(t: Text)
    requires NoControl(t) && Edges(t)
    ensures |Sanitized(t)| <= |Stripped(t)|
  {
    TrimClean(t);
    UnifiedClean(t);
    var s := Stripped(t);
    StrippedUnits(t);
    CollapsedHead(s, true);
    CollapsedBlanks(s, true);
    var blanks := Collapsed(s, true);
    assert forall i :: 0 <= i < |blanks| ==> blanks[i] != LF;
    SeparatedClean(blanks);
    CollapsedHead(OneLine(blanks), false);
    TrimKeeps(Flattened(s));
  }

  /** A text that is normal but for its format characters is left alone exactly when it
      has none. */
  lemma LeftAloneIff(t: Text)
    requires NoControl(t) && SingleBlanks(t, false) && Edges(t)
    ensures Sanitized(t) == t <==> NoFormat(t)
    ensures |Sanitized(t)| <= |t|
  {
    StrippedShorter(t);
    SecondPassShortens(t);
    if NoFormat(t) {
      SanitizedNormal(t);
    }
  }

  /** Applying it again changes nothing, exactly when the text has no two halves of a
      format character to bring together. */
  lemma SanitizeAgainIff(text: Text)
    ensures Sanitized(Sanitized(text)) == Sanitized(text) <==> !Joins(text)
  {
    SanitizedIsNormalIff(text);
    LeftAloneIff(Sanitized(text));
  }

  // ------------------------------------------------- well-formed strings

  /** Every surrogate has its other half next to it, as in any Unicode string. */
  predicate WellFormed(s: Text) {
    if s == [] then true
    else if High(s[0]) then |s| > 1 && Low(s[1]) && WellFormed(s[2..])
    else !Low(s[0]) && WellFormed(s[1..])
  }

  lemma {:induction false} WellFormedHigh(s: Text, i: nat)
    requires WellFormed(s) && i < |s| && High(s[i])
    ensures i + 1 < |s| && Low(s[i + 1])
  {
    if i > 0 {
      if High(s[0]) {
        WellFormedHigh(s[2..], i - 2);
      } else {
        WellFormedHigh(s[1..], i - 1);
      }
    }
  }

  lemma WellFormedApart(s: Text)
    requires WellFormed(s)
    ensures !Joins(s)
  {
    if i, j :| HalvesJoin(s, i, j) {
      assert s[i + 1..j][0] == s[i + 1];
      WellFormedHigh(s, i);
      assert false;
    }
  }

  /** For every Unicode string: the output is normal and a second pass changes nothing. */
  lemma SanitizedIsNormal(text: Text)
    requires WellFormed(text)
    ensures !Joins(text)
    ensures Normal(Sanitized(text)) && Sanitized(Sanitized(text)) == Sanitized(text)
  {
    WellFormedApart(text);
    SanitizedIsNormalIff(text);
    SanitizeAgainIff(text);
  }

  /** A string that is not one: half a tag character, a zero-width joiner, the other
      half. Taking out the joiner makes the tag character, and only a second pass would
      take that out. */
  lemma BrokenStringNeedsTwoPasses()
    ensures var text := [0xDB40, 0x200D, 0xDC01];
            Sanitized(text) == [0xDB40, 0xDC01] && !Normal(Sanitized(text)) && Sanitized(Sanitized(text)) == []
  {
    var text: Text := [0xDB40, 0x200D, 0xDC01];
    TrimClean(text);
    UnifiedClean(text);
    var t: Text := [0xDB40, 0xDC01];
    assert text[1..] == [0x200D, 0xDC01] && text[1..][1..] == [0xDC01];
    assert Stripped([0xDC01]) == [0xDC01];
    assert Stripped(text) == t;
    CollapsedClean(t, true);
    SeparatedClean(t);
    assert OneLine(t) == t;
    CollapsedClean(t, false);
    TrimClean(t);
    UnifiedClean(t);
    assert Format(t[0], t[0 + 1]);
    assert Stripped(t) == [];
  }
}
