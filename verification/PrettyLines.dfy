/** Where the pretty-printed text breaks its lines, and how deep each line stands. */
module PrettyLines {
  import opened JsText
  import opened PrettyPrint

  /** How many braces are open after the text, of `before` that were open; a closing brace too many
      does not count. */
  function OpenBraces(s: string, before: nat): nat {
    if s == "" then before
    else OpenBraces(s[1..], if s[0] == '{' then before + 1 else if s[0] == '}' && before > 0 then before - 1 else before)
  }

  predicate EndsLine(c: char) {
    c == '{' || c == ';' || c == ','
  }

  /** After the line break at `i` come `blanks` spaces and then text. */
  predicate Margin(s: string, i: nat, blanks: nat) {
    && i + 1 + blanks < |s| && !IsSpace(s[i + 1 + blanks])
    && forall k :: i < k <= i + blanks ==> s[k] == ' '
  }

  /** The line after the break at `i` begins with a closing brace. */
  predicate ClosesAt(s: string, i: nat, depth: nat) {
    var outer := if depth > 0 then depth - 1 else 0;
    Margin(s, i, 2 * outer) && s[i + 1 + 2 * outer] == '}'
  }

  /** The line after the break at `i` begins with other text. */
  predicate TextAt(s: string, i: nat, depth: nat) {
    Margin(s, i, 2 * depth) && s[i + 1 + 2 * depth] != '}'
  }

  /** A line break stands at `j`, and only spaces between it and `i`. */
  predicate FirstOnLine(s: string, j: int, i: nat) {
    0 <= j < i < |s| && s[j] == '\n' && forall k :: j < k < i ==> s[k] == ' '
  }

  /** Behind what ends a line there is a line break. */
  predicate BreakFollows(s: string, i: nat) {
    i < |s| && EndsLine(s[i]) && i + 1 < |s| ==> s[i + 1] == '\n'
  }

  /** A closing brace is the first on its line. */
  ghost predicate BraceLeads(s: string, i: nat) {
    i < |s| && s[i] == '}' ==> exists j :: FirstOnLine(s, j, i)
  }

  /** The line after the break at `i` stands `d` deep; `before` is the character before the break. */
  predicate GoodLine(s: string, i: nat, d: nat, before: char) {
    ClosesAt(s, i, d) || (EndsLine(before) && TextAt(s, i, d))
  }

  /** A line break stands behind what ends a line or in front of a closing brace, and the line
      begins with two spaces for each open brace. */
  predicate LineStarts(s: string, i: nat, depth: nat, before: char) {
    i < |s| && s[i] == '\n' ==> GoodLine(s, i, OpenBraces(s[..i], depth), before)
  }

  /** White space is a line break, the margin of a line, or one space between two other characters. */
  ghost predicate SpaceHere(s: string, i: nat, before: char) {
    i < |s| && IsSpace(s[i]) ==>
      || s[i] == '\n'
      || (s[i] == ' ' && exists j :: FirstOnLine(s, j, i))
      || (s[i] == ' ' && !IsSpace(before) && i + 1 < |s| && !IsSpace(s[i + 1]))
  }

  function CharBefore(s: string, i: nat, before: char): char
    requires i <= |s|
  {
    if i == 0 then before else s[i - 1]
  }

  /** All of this at one position of a text that stands behind the character `before`. */
  ghost predicate Proper(s: string, i: nat, depth: nat, before: char) {
    i < |s| ==>
      && BreakFollows(s, i) && BraceLeads(s, i)
      && LineStarts(s, i, depth, CharBefore(s, i, before)) && SpaceHere(s, i, CharBefore(s, i, before))
  }

  lemma {:induction false} OpenConcat(a: string, b: string, before: nat)
    ensures OpenBraces(a + b, before) == OpenBraces(b, OpenBraces(a, before))
  {
    if a == "" {
      assert a + b == b;
    } else {
      assert (a + b)[1..] == a[1..] + b;
      OpenConcat(a[1..], b, if a[0] == '{' then before + 1 else if a[0] == '}' && before > 0 then before - 1 else before);
    }
  }

  lemma MarginShift(a: string, b: string, k: nat, blanks: nat)
    ensures Margin(a + b, |a| + k, blanks) <==> Margin(b, k, blanks)
  {
    hide IsSpace;
    var s := a + b;
    assert forall m :: 0 <= m < |b| ==> s[|a| + m] == b[m];
    if Margin(s, |a| + k, blanks) {
      forall m | k < m <= k + blanks ensures b[m] == ' ' {
        assert s[|a| + m] == b[m];
      }
    }
    if Margin(b, k, blanks) {
      forall m | |a| + k < m <= |a| + k + blanks ensures s[m] == ' ' {
        assert s[m] == b[m - |a|];
      }
    }
  }

  lemma FirstShift(a: string, b: string, j: int, k: nat)
    requires FirstOnLine(b, j, k)
    ensures FirstOnLine(a + b, |a| + j, |a| + k)
  {
    var s := a + b;
    forall m | |a| + j < m < |a| + k ensures s[m] == ' ' {
      assert s[m] == b[m - |a|];
    }
  }

  lemma BreakBehind(a: string, b: string, k: nat)
    requires k < |b| && BreakFollows(b, k)
    ensures BreakFollows(a + b, |a| + k)
  {
  }

  lemma BraceBehind(a: string, b: string, k: nat)
    requires k < |b| && BraceLeads(b, k)
    ensures BraceLeads(a + b, |a| + k)
  {
    hide FirstOnLine;
    assert (a + b)[|a| + k] == b[k];
    if j :| FirstOnLine(b, j, k) {
      FirstShift(a, b, j, k);
    }
  }

  lemma GoodLineBehind(a: string, b: string, k: nat, d: nat, before: char)
    requires k < |b| && GoodLine(b, k, d, before)
    ensures GoodLine(a + b, |a| + k, d, before)
  {
    var outer := if d > 0 then d - 1 else 0;
    if ClosesAt(b, k, d) {
      AtBehind(a, b, k, 2 * outer);
    } else {
      AtBehind(a, b, k, 2 * d);
    }
    hide Margin;
  }

  lemma LineBehind(a: string, b: string, k: nat, depth: nat, before: char)
    requires k < |b| && LineStarts(b, k, OpenBraces(a, depth), before)
    ensures LineStarts(a + b, |a| + k, depth, before)
  {
    hide OpenBraces, GoodLine;
    assert (a + b)[|a| + k] == b[k] && (a + b)[..|a| + k] == a + b[..k];
    OpenConcat(a, b[..k], depth);
    if b[k] == '\n' {
      GoodLineBehind(a, b, k, OpenBraces(b[..k], OpenBraces(a, depth)), before);
    }
  }

  lemma AtBehind(a: string, b: string, k: nat, blanks: nat)
    requires Margin(b, k, blanks)
    ensures Margin(a + b, |a| + k, blanks) && (a + b)[|a| + k + 1 + blanks] == b[k + 1 + blanks]
  {
    MarginShift(a, b, k, blanks);
    hide IsSpace;
  }

  lemma SpaceBehind(a: string, b: string, k: nat, before: char)
    requires k < |b| && SpaceHere(b, k, before)
    ensures SpaceHere(a + b, |a| + k, before)
  {
    hide FirstOnLine, IsSpace;
    assert (a + b)[|a| + k] == b[k] && (k + 1 < |b| ==> (a + b)[|a| + k + 1] == b[k + 1]);
    if j :| FirstOnLine(b, j, k) {
      FirstShift(a, b, j, k);
    }
  }

  /** Text in front of it changes nothing. */
  lemma ProperBehind(a: string, b: string, k: nat, depth: nat, before: char)
    requires a != "" && k < |b| && Proper(b, k, OpenBraces(a, depth), a[|a| - 1])
    ensures Proper(a + b, |a| + k, depth, before)
  {
    var last := CharBefore(b, k, a[|a| - 1]);
    assert CharBefore(a + b, |a| + k, before) == last;
    hide BreakFollows, BraceLeads, LineStarts, SpaceHere, OpenBraces;
    BreakBehind(a, b, k);
    BraceBehind(a, b, k);
    LineBehind(a, b, k, depth, last);
    SpaceBehind(a, b, k, last);
  }

  // ---- the layout

  lemma {:induction false} SpaceOpensNothing(s: string, before: nat)
    requires AllSpace(s)
    ensures OpenBraces(s, before) == before
  {
    if s != "" {
      assert IsSpace(s[0]);
      SpaceOpensNothing(s[1..], before);
    }
  }

  lemma OpenAfter(sep: string, c: char, depth: nat)
    requires AllSpace(sep)
    ensures OpenBraces(sep + [c], depth) == After(c, depth)
  {
    OpenConcat(sep, [c], depth);
    SpaceOpensNothing(sep, depth);
    assert [c][1..] == "";
  }

  lemma SpaceFacts()
    ensures IsSpace('\n') && IsSpace(' ')
  {
  }

  lemma NoSeparator(c: char, rest: string, depth: nat, prev: char)
    requires !IsSpace(c) && c != '}' && (EndsLine(c) && rest != "" ==> rest[0] == '\n')
    ensures Proper([c] + rest, 0, depth, prev)
  {
    SpaceFacts();
    hide IsSpace;
  }

  lemma OneSpace(c: char, rest: string, i: nat, depth: nat, prev: char)
    requires !IsSpace(prev) && !IsSpace(c) && c != '}' && (EndsLine(c) && rest != "" ==> rest[0] == '\n') && i < 2
    ensures Proper(" " + [c] + rest, i, depth, prev)
  {
    hide IsSpace;
    var s := " " + [c] + rest;
    assert s[0] == ' ' && s[1] == c && (rest != "" ==> s[2] == rest[0]);
    SpaceFacts();
  }

  lemma NewLine(n: nat, c: char, rest: string, i: nat, depth: nat, prev: char)
    requires !IsSpace(c) && (EndsLine(c) && rest != "" ==> rest[0] == '\n') && i < 2 * n + 2
    requires if c == '}' then n == (if depth > 0 then depth - 1 else 0) else EndsLine(prev) && n == depth
    ensures Proper("\n" + Indent(n) + [c] + rest, i, depth, prev)
  {
    var line := "\n" + Indent(n);
    SpacesAreSpace(2 * n);
    var s := line + [c] + rest;
    assert |line| == 2 * n + 1 && s[0] == '\n' && s[2 * n + 1] == c;
    assert forall k :: 1 <= k <= 2 * n ==> s[k] == Indent(n)[k - 1] == ' ';
    assert rest != "" ==> s[2 * n + 2] == rest[0];
    hide IsSpace, Spaces, OpenBraces;
    SpaceFacts();
    assert s[..0] == "" && OpenBraces("", depth) == depth by { NoneOpen(depth); }
    assert Margin(s, 0, 2 * n);
    if i > 0 {
      assert FirstOnLine(s, 0, i);
    }
  }

  lemma NoneOpen(depth: nat)
    ensures OpenBraces("", depth) == depth
  {
  }

  lemma FrontProper(prev: char, gap: bool, c: char, depth: nat, rest: string, i: nat)
    requires !IsSpace(prev) && !IsSpace(c) && (EndsLine(c) && rest != "" ==> rest[0] == '\n')
    requires i <= |Separator(Some(prev), gap, c, depth)|
    ensures Proper(Separator(Some(prev), gap, c, depth) + [c] + rest, i, depth, prev)
  {
    hide IsSpace, Proper, Indent;
    SpacesAreSpace(2 * depth);
    SpacesAreSpace(2 * After('}', depth));
    IndentLength(depth);
    IndentLength(After('}', depth));
    if c == '}' {
      NewLine(After('}', depth), c, rest, i, depth, prev);
    } else if Breaks(prev) {
      NewLine(depth, c, rest, i, depth, prev);
    } else if gap {
      OneSpace(c, rest, i, depth, prev);
    } else {
      NoSeparator(c, rest, depth, prev);
      assert "" + [c] + rest == [c] + rest;
    }
  }

  lemma IndentLength(n: nat)
    ensures |Indent(n)| == 2 * n
  {
    SpacesAreSpace(2 * n);
  }

  /** Behind what ends a line the layout begins with a line break. */
  lemma {:induction false} StartsBroken(s: string, prev: char, gap: bool, depth: nat)
    ensures EndsLine(prev) && Lay(s, Some(prev), gap, depth) != "" ==> Lay(s, Some(prev), gap, depth)[0] == '\n'
    decreases |s|
  {
    hide IsSpace, Indent;
    if s != "" && IsSpace(s[0]) {
      StartsBroken(s[1..], prev, true, depth);
    }
  }

  lemma {:induction false} LayProper(s: string, prev: char, gap: bool, depth: nat)
    requires !IsSpace(prev)
    ensures forall i: nat :: Proper(Lay(s, Some(prev), gap, depth), i, depth, prev)
    decreases |s|
  {
    hide IsSpace, Proper, Separator, After, OpenBraces;
    if s == "" {
      NothingProper(depth, prev);
    } else if IsSpace(s[0]) {
      LayProper(s[1..], prev, true, depth);
    } else {
      var c := s[0];
      var sep, rest := Separator(Some(prev), gap, c, depth), Lay(s[1..], Some(c), false, After(c, depth));
      LayProper(s[1..], c, false, After(c, depth));
      StartsBroken(s[1..], c, false, After(c, depth));
      SeparatorIsSpace(Some(prev), gap, c, depth);
      OpenAfter(sep, c, depth);
      var all := sep + [c] + rest;
      forall i: nat ensures Proper(all, i, depth, prev) {
        FrontOrRest(prev, gap, c, depth, rest, i);
      }
    }
  }

  lemma NothingProper(depth: nat, prev: char)
    ensures forall i: nat :: Proper("", i, depth, prev)
  {
  }

  lemma FrontOrRest(prev: char, gap: bool, c: char, depth: nat, rest: string, i: nat)
    requires !IsSpace(prev) && !IsSpace(c) && (EndsLine(c) && rest != "" ==> rest[0] == '\n')
    requires forall k: nat :: Proper(rest, k, After(c, depth), c)
    requires OpenBraces(Separator(Some(prev), gap, c, depth) + [c], depth) == After(c, depth)
    ensures Proper(Separator(Some(prev), gap, c, depth) + [c] + rest, i, depth, prev)
  {
    hide *;
    var sep := Separator(Some(prev), gap, c, depth);
    var front := sep + [c];
    if i <= |sep| {
      FrontProper(prev, gap, c, depth, rest, i);
    } else if i < |front| + |rest| {
      ProperBehind(front, rest, i - |front|, depth, prev);
    } else {
      BeyondProper(front + rest, i, depth, prev);
    }
  }

  lemma BeyondProper(s: string, i: nat, depth: nat, prev: char)
    requires i >= |s|
    ensures Proper(s, i, depth, prev)
  {
  }

  /** The whole text: a line break follows every `{`, `;` and `,` that anything follows and precedes
      every `}` but one at the very beginning; every line begins with two spaces for each brace
      that is open, its own closing one counted; and there is no other white space than single
      spaces between characters. */
  lemma LinesExactly(text: string, i: nat)
    requires i < |Pretty(text)|
    ensures (var r := Pretty(text);
             && (EndsLine(r[i]) && i + 1 < |r| ==> r[i + 1] == '\n')
             && (r[i] == '}' && i > 0 ==> exists j :: FirstOnLine(r, j, i))
             && (r[i] == '\n' ==> i > 0 && (|| ClosesAt(r, i, OpenBraces(r[..i], 0))
                                            || (EndsLine(r[i - 1]) && TextAt(r, i, OpenBraces(r[..i], 0)))))
             && (IsSpace(r[i]) ==>
                   || r[i] == '\n'
                   || (r[i] == ' ' && exists j :: FirstOnLine(r, j, i))
                   || (r[i] == ' ' && i > 0 && !IsSpace(r[i - 1]) && i + 1 < |r| && !IsSpace(r[i + 1]))))
  {
    var s := StripBlocks(text);
    hide Lay, StripBlocks, IsSpace;
    var first := FirstChar(s);
    SpaceFacts();
    if first.Some? {
      var (c, rest) := first.value;
      var laid := Lay(rest, Some(c), false, After(c, 0));
      LayProper(rest, c, false, After(c, 0));
      StartsBroken(rest, c, false, After(c, 0));
      OpenAfter("", c, 0);
      assert "" + [c] == [c];
      if i > 0 {
        ProperBehind([c], laid, i - 1, 0, ' ');
      }
    }
  }

  /** The first character that is not white space, and what follows it. */
  lemma FirstChar(s: string) returns (first: Option<(char, string)>)
    ensures first.None? ==> Layout(s) == ""
    ensures first.Some? ==> !IsSpace(first.value.0)
    ensures first.Some? ==> (var c := first.value.0; Layout(s) == [c] + Lay(first.value.1, Some(c), false, After(c, 0)))
  {
    var t := TrimStart(s);
    var space := s[..|s| - |t|];
    TrimStartCutsSpace(s);
    assert s == space + t;
    LaySkips(space, t, None, false, 0);
    if t == "" {
      first := None;
    } else {
      var rest := Lay(t[1..], Some(t[0]), false, After(t[0], 0));
      first := Some((t[0], t[1..]));
      LayStep(t, 0, None, space != "", 0);
      assert t[0..] == t;
      assert "" + [t[0]] + rest == [t[0]] + rest;
    }
  }
}
