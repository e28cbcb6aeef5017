/** Bracket depth in type texts, and what the depth-aware splitter makes of joined members. */
module BracketText {
  import opened JsText
  import opened TypeText

  function Level(s: string): int {
    if s == "" then 0 else Bracket(s[0]) + Level(s[1..])
  }

  /** Read from depth `d`, the depth never falls below 0. */
  predicate Floor(s: string, d: int) {
    s == "" || (d + Bracket(s[0]) >= 0 && Floor(s[1..], d + Bracket(s[0])))
  }

  /** Read from depth `d`, no bar is met at depth 0. */
  predicate NoTopBar(s: string, d: int) {
    s == "" || (!(s[0] == '|' && d == 0) && NoTopBar(s[1..], d + Bracket(s[0])))
  }

  predicate Balanced(s: string) {
    Level(s) == 0 && Floor(s, 0)
  }

  /** Balanced, and no bar outside all brackets: the text of one member of a union. */
  predicate Atom(s: string) {
    Balanced(s) && NoTopBar(s, 0)
  }

  lemma {:induction false} LevelConcat(a: string, b: string)
    ensures Level(a + b) == Level(a) + Level(b)
  {
    if a == "" {
      assert a + b == b;
    } else {
      LevelConcat(a[1..], b);
      assert (a + b)[1..] == a[1..] + b;
    }
  }

  lemma {:induction false} FloorConcat(a: string, b: string, d: int)
    ensures Floor(a + b, d) <==> Floor(a, d) && Floor(b, d + Level(a))
  {
    if a == "" {
      assert a + b == b;
    } else {
      FloorConcat(a[1..], b, d + Bracket(a[0]));
      assert (a + b)[1..] == a[1..] + b;
    }
  }

  lemma {:induction false} NoTopBarConcat(a: string, b: string, d: int)
    ensures NoTopBar(a + b, d) <==> NoTopBar(a, d) && NoTopBar(b, d + Level(a))
  {
    if a == "" {
      assert a + b == b;
    } else {
      NoTopBarConcat(a[1..], b, d + Bracket(a[0]));
      assert (a + b)[1..] == a[1..] + b;
    }
  }

  /** Above the floor of a text there is no bar at depth 0. */
  lemma {:induction false} AboveFloor(s: string, floor: int, d: int)
    requires Floor(s, floor) && 0 <= floor < d
    ensures Floor(s, d) && NoTopBar(s, d)
  {
    if s != "" {
      AboveFloor(s[1..], floor + Bracket(s[0]), d + Bracket(s[0]));
    }
  }

  lemma BalancedConcat(a: string, b: string)
    requires Balanced(a) && Balanced(b)
    ensures Balanced(a + b)
    ensures NoTopBar(a, 0) && NoTopBar(b, 0) ==> Atom(a + b)
  {
    LevelConcat(a, b);
    FloorConcat(a, b, 0);
    NoTopBarConcat(a, b, 0);
  }

  lemma OneChar(c: char)
    ensures Level([c]) == Bracket(c)
    ensures forall d :: NoTopBar([c], d) <==> !(c == '|' && d == 0)
    ensures forall d :: Floor([c], d) <==> d + Bracket(c) >= 0
  {
    assert [c][1..] == "";
  }

  /** Brackets around a balanced text hide every bar in it. */
  lemma Enclosed(open: char, s: string, close: char)
    requires Bracket(open) == 1 && Bracket(close) == -1 && Balanced(s)
    ensures Atom([open] + s + [close])
  {
    hide Level, Floor, NoTopBar;
    OneChar(open);
    OneChar(close);
    AboveFloor(s, 0, 1);
    LevelConcat([open], s);
    LevelConcat([open] + s, [close]);
    FloorConcat([open], s, 0);
    FloorConcat([open] + s, [close], 0);
    NoTopBarConcat([open], s, 0);
    NoTopBarConcat([open] + s, [close], 0);
  }

  /** Text without brackets and bars. */
  predicate Flat(s: string) {
    forall i :: 0 <= i < |s| ==> Bracket(s[i]) == 0 && s[i] != '|'
  }

  lemma {:induction false} FlatIsAtom(s: string)
    requires Flat(s)
    ensures Atom(s)
  {
    if s != "" {
      FlatIsAtom(s[1..]);
    }
  }

  /** A bar between balanced texts keeps the text balanced. */
  lemma BarIsBalanced()
    ensures Balanced(" | ")
  {
    OneChar(' ');
    OneChar('|');
    BalancedConcat(" ", "|");
    BalancedConcat(" " + "|", " ");
    assert " " + "|" + " " == " | ";
  }

  // ---- the splitter

  /** Text without a bar at depth 0 is only accumulated. */
  lemma {:induction false} SplitSkips(a: string, b: string, d: int, current: string)
    requires NoTopBar(a, d)
    ensures SplitFrom(a + b, d, current) == SplitFrom(b, d + Level(a), current + a)
  {
    if a == "" {
      assert a + b == b && current + a == current;
    } else {
      assert (a + b)[1..] == a[1..] + b;
      SplitSkips(a[1..], b, d + Bracket(a[0]), current + [a[0]]);
      assert current + [a[0]] + a[1..] == current + a;
    }
  }

  predicate IsMember(s: string) {
    s != "" && Trimmed(s) && Atom(s)
  }

  predicate AllMembers(parts: seq<string>) {
    forall i :: 0 <= i < |parts| ==> IsMember(parts[i])
  }

  /** Members joined with bars. */
  function Bars(parts: seq<string>): string {
    if parts == [] then "" else if |parts| == 1 then parts[0] else parts[0] + " | " + Bars(parts[1..])
  }

  lemma BarsUnfold(parts: seq<string>)
    ensures |parts| == 1 ==> Bars(parts) == parts[0]
    ensures |parts| > 1 ==> Bars(parts) == parts[0] + " | " + Bars(parts[1..])
  {
  }

  lemma {:induction false} BarsSnoc(parts: seq<string>, last: string)
    requires parts != []
    ensures Bars(parts + [last]) == Bars(parts) + " | " + last
  {
    if |parts| > 1 {
      BarsSnoc(parts[1..], last);
      assert (parts + [last])[1..] == parts[1..] + [last];
      BarsUnfold(parts + [last]);
      BarsUnfold(parts);
      ConcatAssoc(parts[0] + " | ", Bars(parts[1..]), " | ");
      ConcatAssoc(parts[0] + " | ", Bars(parts[1..]) + " | ", last);
    } else {
      assert (parts + [last])[1..] == [last];
    }
  }

  lemma TrimStartSpace(s: string)
    requires s != "" && !IsSpace(s[0])
    ensures TrimStart(s) == s && TrimStart(" " + s) == s
  {
    assert (" " + s)[1..] == s;
  }

  lemma TrimPadded(s: string, before: bool, after: bool)
    requires s != "" && Trimmed(s)
    ensures Trim((if before then " " else "") + s + (if after then " " else "")) == s
  {
    var tail := if after then " " else "";
    hide TrimEnd, TrimStart;
    TrimStartSpace(s + tail);
    assert " " + (s + tail) == " " + s + tail && "" + s + tail == s + tail;
    TrimEndOfSpaced(s, tail);
  }

  lemma SplitStep(c: char, s: string, depth: int, current: string)
    ensures SplitFrom([c] + s, depth, current)
         == (if c == '|' && depth == 0 then [Trim(current)] + SplitFrom(s, 0, "")
             else SplitFrom(s, depth + Bracket(c), current + [c]))
  {
    hide Trim;
    var t := [c] + s;
    assert t[0] == c && t[1..] == s;
  }

  lemma SplitAtBar(part: string, rest: string, before: bool)
    requires IsMember(part)
    ensures SplitFrom(part + " | " + rest, 0, if before then " " else "")
         == [part] + SplitFrom(rest, 0, " ")
  {
    hide SplitFrom, Trim, Trimmed, Level, Floor, NoTopBar;
    var start := if before then " " else "";
    ConcatAssoc(part, " | ", rest);
    SplitSkips(part, " | " + rest, 0, start);
    assert " | " + rest == [' '] + ("| " + rest) && "| " + rest == ['|'] + (" " + rest) && " " + rest == [' '] + rest;
    SplitStep(' ', "| " + rest, 0, start + part);
    SplitStep('|', " " + rest, 0, start + part + " ");
    SplitStep(' ', rest, 0, "");
    TrimPadded(part, before, true);
    assert start + part + " " == (if before then " " else "") + part + (if true then " " else "");
    assert "" + [' '] == " ";
  }

  /** The splitter undoes joining. */
  lemma {:induction false} SplitBars(parts: seq<string>, before: bool)
    requires parts != [] && AllMembers(parts)
    ensures SplitFrom(Bars(parts), 0, if before then " " else "") == parts
  {
    hide SplitFrom, Trim, Trimmed, Level, Floor, NoTopBar;
    assert IsMember(parts[0]);
    if |parts| == 1 {
      SplitLast(parts[0], before);
    } else {
      SplitAtBar(parts[0], Bars(parts[1..]), before);
      SplitBars(parts[1..], true);
      assert [parts[0]] + parts[1..] == parts;
    }
  }

  lemma SplitLast(part: string, before: bool)
    requires IsMember(part)
    ensures SplitFrom(part, 0, if before then " " else "") == [part]
  {
    hide Trim, Trimmed, Level, Floor, NoTopBar;
    var start := if before then " " else "";
    assert part + "" == part;
    SplitSkips(part, "", 0, start);
    TrimPadded(part, before, false);
    assert start + part + "" == start + part;
  }

  lemma SplitOfMember(s: string)
    requires IsMember(s)
    ensures SplitUnion(s) == [s]
  {
    SplitBars([s], false);
  }

  /** No bar inside any of the four pairs of brackets splits a text. */
  lemma BracketsHideBars(open: char, a: string, b: string, close: char)
    requires (open, close) in {('<', '>'), ('(', ')'), ('{', '}'), ('[', ']')}
    requires Balanced(a) && Balanced(b)
    ensures SplitUnion([open] + (a + " | " + b) + [close]) == [[open] + (a + " | " + b) + [close]]
  {
    var inner := a + " | " + b;
    hide Balanced, Atom, SplitFrom;
    BarIsBalanced();
    BalancedConcat(a, " | ");
    BalancedConcat(a + " | ", b);
    Enclosed(open, inner, close);
    var s := [open] + inner + [close];
    assert s[0] == open && s[|s| - 1] == close && !IsSpace(open) && !IsSpace(close);
    SplitOfMember(s);
  }
}
