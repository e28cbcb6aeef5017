/** What can be read in a release section: which heading each bullet stands under, which issues it
    names, and what the section looks like as text. */
module ReleaseReading {
  import opened JsText
  import opened Decimal
  import opened Markdown
  import opened Fragments
  import opened ChangeSections
  import opened Changelog

  function UpperCase(c: char): char {
    if 'a' <= c <= 'z' then ((c as int) - 32) as char else c
  }

  /** The name with its first letter in upper case. */
  function Capitalized(name: string): string {
    if name == "" then "" else [UpperCase(name[0])] + name[1..]
  }

  /** The heading for a change type, from its name in the JSON file. */
  function HeadingFor(name: string): string {
    "### " + Capitalized(name)
  }

  lemma HeadingIs(first: char, rest: string)
    ensures HeadingFor([first] + rest) == "### " + ([UpperCase(first)] + rest)
  {
    assert ([first] + rest)[1..] == rest;
  }

  lemma UpperLetters()
    ensures UpperCase('a') == 'A' && UpperCase('c') == 'C' && UpperCase('d') == 'D'
    ensures UpperCase('r') == 'R' && UpperCase('f') == 'F' && UpperCase('s') == 'S'
  {
  }

  lemma TypeHeadings(kind: ChangeType)
    ensures TypeHeading(kind) == HeadingFor(TypeName(kind))
  {
    hide HeadingFor, UpperCase;
    UpperLetters();
    match kind {
      case Added => HeadingIs('a', "dded"); assert ['a'] + "dded" == "added" && "### " + (['A'] + "dded") == "### Added";
      case Changed => HeadingIs('c', "hanged"); assert ['c'] + "hanged" == "changed" && "### " + (['C'] + "hanged") == "### Changed";
      case Deprecated =>
        HeadingIs('d', "eprecated");
        assert ['d'] + "eprecated" == "deprecated" && "### " + (['D'] + "eprecated") == "### Deprecated";
      case Removed => HeadingIs('r', "emoved"); assert ['r'] + "emoved" == "removed" && "### " + (['R'] + "emoved") == "### Removed";
      case Fixed => HeadingIs('f', "ixed"); assert ['f'] + "ixed" == "fixed" && "### " + (['F'] + "ixed") == "### Fixed";
      case Security => HeadingIs('s', "ecurity"); assert ['s'] + "ecurity" == "security" && "### " + (['S'] + "ecurity") == "### Security";
    }
  }

  // ---- headings and bullets

  /** Every bullet line with the heading that stands last before it. */
  function UnderHeadings(lines: seq<string>, heading: string): seq<(string, string)> {
    if lines == [] then []
    else if IsTypeHeading(lines[0]) then UnderHeadings(lines[1..], lines[0])
    else (if IsBullet(lines[0]) then [(heading, lines[0])] else []) + UnderHeadings(lines[1..], heading)
  }

  function LastHeading(lines: seq<string>, heading: string): string {
    if lines == [] then heading else LastHeading(lines[1..], if IsTypeHeading(lines[0]) then lines[0] else heading)
  }

  function HeadingLines(lines: seq<string>): seq<string> {
    if lines == [] then [] else (if IsTypeHeading(lines[0]) then [lines[0]] else []) + HeadingLines(lines[1..])
  }

  lemma {:induction false} UnderConcat(a: seq<string>, b: seq<string>, heading: string)
    ensures UnderHeadings(a + b, heading) == UnderHeadings(a, heading) + UnderHeadings(b, LastHeading(a, heading))
    ensures HeadingLines(a + b) == HeadingLines(a) + HeadingLines(b)
  {
    hide IsTypeHeading, IsBullet;
    if a == [] {
      assert a + b == b;
    } else {
      assert (a + b)[1..] == a[1..] + b;
      UnderConcat(a[1..], b, if IsTypeHeading(a[0]) then a[0] else heading);
    }
  }

  /** The bullets of fragments, each under the heading of its type. */
  function Headed(fragments: seq<Fragment>): seq<(string, string)> {
    seq(|fragments|, i requires 0 <= i < |fragments| => (HeadingFor(TypeName(fragments[i].kind)), Bullet(fragments[i])))
  }

  lemma UnderBullet(bullet: string, rest: seq<string>, heading: string)
    requires IsBullet(bullet) && !IsTypeHeading(bullet)
    ensures UnderHeadings([bullet] + rest, heading) == [(heading, bullet)] + UnderHeadings(rest, heading)
    ensures HeadingLines([bullet] + rest) == HeadingLines(rest)
  {
    hide IsBullet, IsTypeHeading;
    assert ([bullet] + rest)[1..] == rest;
    assert [] + HeadingLines(rest) == HeadingLines(rest);
  }

  lemma {:induction false} BulletsUnder(group: seq<Fragment>, kind: ChangeType)
    requires forall f :: f in group ==> f.kind == kind
    ensures UnderHeadings(Bullets(group), TypeHeading(kind)) == Headed(group)
    ensures HeadingLines(Bullets(group)) == []
  {
    if group == [] {
      BlankUnder(TypeHeading(kind));
    } else {
      hide *;
      var first, rest := group[0], group[1..];
      BulletsUnder(rest, kind);
      TypeHeadings(kind);
      BulletIsBullet(first);
      NoHeading(Bullet(first));
      assert group == [first] + rest && first in group;
      OneMore(first, rest);
      UnderBullet(Bullet(first), Bullets(rest), TypeHeading(kind));
    }
  }

  lemma OneMore(first: Fragment, rest: seq<Fragment>)
    ensures Bullets([first] + rest) == [Bullet(first)] + Bullets(rest)
    ensures Headed([first] + rest) == [(HeadingFor(TypeName(first.kind)), Bullet(first))] + Headed(rest)
  {
    hide TypeName, Bullet, HeadingFor;
  }

  lemma NoHeading(line: string)
    ensures IsBullet(line) ==> !IsTypeHeading(line)
  {
    assert "- "[0] == '-' && "### "[0] == '#';
  }

  lemma GroupUnder(group: seq<Fragment>, kind: ChangeType, heading: string)
    requires forall f :: f in group ==> f.kind == kind
    ensures UnderHeadings([TypeHeading(kind), ""] + Bullets(group), heading) == Headed(group)
    ensures HeadingLines([TypeHeading(kind), ""] + Bullets(group)) == [TypeHeading(kind)]
  {
    var h := TypeHeading(kind);
    assert IsTypeHeading(h) && !IsTypeHeading("") && !IsBullet("");
    BulletsUnder(group, kind);
    hide IsTypeHeading, IsBullet, TypeHeading, Bullets, Headed;
    var lines := [h, ""];
    assert lines[1..] == [""] && [""][1..] == [];
    UnderConcat(lines, Bullets(group), heading);
  }

  lemma AppendGroupUnder(lines: seq<string>, kind: ChangeType, group: seq<Fragment>)
    requires forall f :: f in group ==> f.kind == kind
    ensures UnderHeadings(AppendGroup(lines, kind, group), "") == UnderHeadings(lines, "") + Headed(group)
    ensures HeadingLines(AppendGroup(lines, kind, group)) == HeadingLines(lines) + [TypeHeading(kind)]
  {
    BlankUnder(LastHeading(lines, ""));
    hide UnderHeadings, HeadingLines, LastHeading, TypeHeading, Bullets, Headed;
    var sep := if lines == [] then [] else lines + [""];
    UnderConcat(lines, [""], "");
    GroupUnder(group, kind, LastHeading(sep, ""));
    UnderConcat(sep, [TypeHeading(kind), ""] + Bullets(group), "");
  }

  lemma BlankUnder(heading: string)
    ensures UnderHeadings([""], heading) == [] && HeadingLines([""]) == []
    ensures UnderHeadings([], heading) == [] && HeadingLines([]) == []
  {
    assert [""][1..] == [];
  }

  /** The headings of the types that some fragment for the target has. */
  function PresentHeadings(names: seq<string>, fragments: seq<Fragment>, target: Target): seq<string> {
    if names == [] then []
    else
      (if Present(names[0], fragments, target) then [HeadingFor(names[0])] else [])
      + PresentHeadings(names[1..], fragments, target)
  }

  /** Some fragment for the target has the type of this name. */
  predicate Present(name: string, fragments: seq<Fragment>, target: Target) {
    exists i :: 0 <= i < |fragments| && TypeName(fragments[i].kind) == name && target in fragments[i].targets
  }

  function Names(types: seq<ChangeType>): seq<string> {
    seq(|types|, i requires 0 <= i < |types| => TypeName(types[i]))
  }

  lemma {:induction false} GroupPresent(fragments: seq<Fragment>, target: Target, kind: ChangeType)
    ensures Group(fragments, target, kind) != [] <==> Present(TypeName(kind), fragments, target)
  {
    hide TypeName;
    if fragments != [] {
      GroupPresent(fragments[1..], target, kind);
      SameName(fragments[0].kind, kind);
      if Present(TypeName(kind), fragments[1..], target) {
        var i :| 0 <= i < |fragments[1..]| && TypeName(fragments[1..][i].kind) == TypeName(kind) && target in fragments[1..][i].targets;
        assert fragments[i + 1] == fragments[1..][i];
      }
      if Present(TypeName(kind), fragments, target) {
        var i :| 0 <= i < |fragments| && TypeName(fragments[i].kind) == TypeName(kind) && target in fragments[i].targets;
        assert i > 0 ==> fragments[1..][i - 1] == fragments[i];
      }
    }
  }

  lemma SameName(a: ChangeType, b: ChangeType)
    ensures TypeName(a) == TypeName(b) <==> a == b
  {
    assert TypeNamed(TypeName(a)) == Some(a) && TypeNamed(TypeName(b)) == Some(b);
  }

  lemma {:induction false} AppendTypesUnder(lines: seq<string>, types: seq<ChangeType>, fragments: seq<Fragment>, target: Target)
    ensures (var all := AppendTypes(lines, types, fragments, target);
             && UnderHeadings(all, "") == UnderHeadings(lines, "") + Headed(Grouped(types, fragments, target))
             && HeadingLines(all) == HeadingLines(lines) + PresentHeadings(Names(types), fragments, target))
    decreases |types|
  {
    hide UnderHeadings, HeadingLines, Headed, Grouped, Group, AppendGroup, TypeHeading, TypeName, HeadingFor, Present;
    if types == [] {
      NothingHeaded(fragments, target);
    } else {
      var group, more := Group(fragments, target, types[0]), Grouped(types[1..], fragments, target);
      GroupMembers(fragments, target, types[0]);
      GroupPresent(fragments, target, types[0]);
      GroupedUnfold(types, fragments, target);
      HeadedConcat(group, more);
      TypeHeadings(types[0]);
      assert Names(types)[0] == TypeName(types[0]) && Names(types)[1..] == Names(types[1..]);
      var next := if group == [] then lines else AppendGroup(lines, types[0], group);
      AppendTypesUnder(next, types[1..], fragments, target);
      if group != [] {
        AppendGroupUnder(lines, types[0], group);
      } else {
        assert group + more == more;
      }
    }
  }

  lemma NothingHeaded(fragments: seq<Fragment>, target: Target)
    ensures Headed(Grouped([], fragments, target)) == [] && Names([]) == []
  {
  }

  lemma HeadedConcat(a: seq<Fragment>, b: seq<Fragment>)
    ensures Headed(a + b) == Headed(a) + Headed(b)
  {
    hide TypeName, Bullet, HeadingFor;
  }

  /** Every printed bullet stands under the heading of its type, in the sorted order, and exactly the
      headings of the types that occur are printed, each once and in this order. */
  lemma ChangeLinesHeaded(fragments: seq<Fragment>, target: Target)
    ensures UnderHeadings(ChangeLines(fragments, target), "") == Headed(Ordered(fragments, target))
    ensures HeadingLines(ChangeLines(fragments, target))
         == PresentHeadings(["added", "changed", "deprecated", "removed", "fixed", "security"], fragments, target)
  {
    hide *;
    AppendTypesUnder([], CHANGE_TYPES, fragments, target);
    BlankUnder("");
    TypesInOrder(fragments, target);
  }

  lemma TypesInOrder(fragments: seq<Fragment>, target: Target)
    ensures Names(CHANGE_TYPES) == ["added", "changed", "deprecated", "removed", "fixed", "security"]
    ensures ChangeLines(fragments, target) == AppendTypes([], CHANGE_TYPES, fragments, target)
    ensures Ordered(fragments, target) == Grouped(CHANGE_TYPES, fragments, target)
  {
    hide AppendTypes, Grouped;
  }

  // ---- issues

  /** The number behind the `#` in one piece of an issue list. */
  function PieceIssue(piece: string): Option<nat> {
    var s := TrimStart(piece);
    if s != "" && s[0] == '#' && AllDigits(s[1..]) then Some(NumeralValue(s[1..])) else None
  }

  function PieceIssues(pieces: seq<string>): seq<nat> {
    if pieces == [] then []
    else (if PieceIssue(pieces[0]).Some? then [PieceIssue(pieces[0]).value] else []) + PieceIssues(pieces[1..])
  }

  /** The issues in what stands behind the message of a bullet. */
  function ReadIssues(suffix: string): seq<nat> {
    if |suffix| < 3 then [] else PieceIssues(Split(suffix[2..|suffix| - 1], ','))
  }

  function Pieces(issues: seq<nat>, padded: bool): (r: seq<string>)
    ensures |r| == |issues|
  {
    if issues == [] then [] else [(if padded then " " else "") + "#" + Numeral(issues[0])] + Pieces(issues[1..], true)
  }

  lemma {:induction false} ListIsJoined(issues: seq<nat>, padded: bool)
    requires issues != []
    ensures (if padded then " " else "") + IssueList(issues) == Join(Pieces(issues, padded), ',')
  {
    hide Numeral;
    var pad, first, pieces := if padded then " " else "", "#" + Numeral(issues[0]), Pieces(issues, padded);
    assert pad + first == pad + "#" + Numeral(issues[0]);
    if |issues| > 1 {
      ListIsJoined(issues[1..], true);
      var rest := IssueList(issues[1..]);
      assert pieces[1..] == Pieces(issues[1..], true);
      assert pad + (first + ", " + rest) == pad + first + [','] + (" " + rest);
    }
  }

  lemma {:induction false} PiecesRead(issues: seq<nat>, padded: bool)
    ensures PieceIssues(Pieces(issues, padded)) == issues
    ensures forall i :: 0 <= i < |issues| ==> ',' !in Pieces(issues, padded)[i]
  {
    hide TrimStart, Numeral, PieceIssue;
    if issues != [] {
      PieceReads(issues[0], padded);
      PiecesRead(issues[1..], true);
      assert Pieces(issues, padded)[1..] == Pieces(issues[1..], true);
      assert [issues[0]] + issues[1..] == issues;
    }
  }

  lemma PieceReads(n: nat, padded: bool)
    ensures (var piece := (if padded then " " else "") + "#" + Numeral(n); PieceIssue(piece) == Some(n) && ',' !in piece)
  {
    NumeralRoundTrip(n);
    hide Numeral, NumeralValue, TrimStart;
    var s := "#" + Numeral(n);
    assert s[1..] == Numeral(n);
    HashNoSpace();
    assert s[0] == '#';
    TrimOne(s);
    assert "" + "#" + Numeral(n) == s && " " + "#" + Numeral(n) == " " + s;
  }

  lemma HashNoSpace()
    ensures !IsSpace('#')
  {
  }

  lemma TrimOne(s: string)
    requires s != "" && !IsSpace(s[0])
    ensures TrimStart(s) == s && TrimStart(" " + s) == s
  {
    assert (" " + s)[1..] == s;
  }

  /** The issues of a fragment can be read back from its bullet, behind the message. */
  lemma BulletReads(f: Fragment)
    ensures "- " + f.message <= Bullet(f)
    ensures ReadIssues(Bullet(f)[|f.message| + 2..]) == f.issues
  {
    hide IssueList;
    var suffix := IssueSuffix(f.issues);
    assert Bullet(f) == "- " + f.message + suffix;
    assert Bullet(f)[|f.message| + 2..] == suffix;
    if f.issues != [] {
      var list := IssueList(f.issues);
      assert suffix == " (" + list + ")";
      assert suffix[2..|suffix| - 1] == list;
      ListIsJoined(f.issues, false);
      assert "" + list == list;
      PiecesRead(f.issues, false);
      SplitJoin(Pieces(f.issues, false), ',');
      ListNotEmpty(f.issues);
    }
  }

  lemma ListNotEmpty(issues: seq<nat>)
    requires issues != []
    ensures IssueList(issues) != ""
  {
  }

  /** Without the message they cannot: a message may end like a list of issues. */
  lemma SameBullet(kind: ChangeType, message: string, targets: seq<Target>, n: nat)
    ensures Bullet(Fragment(kind, message, targets, [n])) == Bullet(Fragment(kind, message + " (#" + Numeral(n) + ")", targets, []))
  {
    hide Numeral;
    var list := "#" + Numeral(n);
    assert IssueList([n]) == list;
    assert " (" + list + ")" == " (#" + Numeral(n) + ")";
    assert "- " + message + (" (#" + Numeral(n) + ")") == "- " + (message + " (#" + Numeral(n) + ")") + "";
  }

  // ---- the section as text

  /** A release with one fragment, line by line. */
  lemma OneFragmentRelease(target: Target, version: string, date: string, f: Fragment)
    requires target in f.targets && |f.issues| == 1
    ensures var s := Release(target, version, date, [f]);
            && s.heading == "## [" + version + "] \U{2014} " + date
            && s.body == ["",
                          if TargetName(target) == "spec" then "Spec version: `" + version + "`" else "Implements AHP " + version + ".",
                          "",
                          HeadingFor(TypeName(f.kind)),
                          "",
                          "- " + f.message + " (#" + Numeral(f.issues[0]) + ")",
                          ""]
  {
    hide *;
    var h, b := HeadingFor(TypeName(f.kind)), Bullet(f);
    OneGroup(f, target);
    TypeHeadings(f.kind);
    OneIssue(f);
    ReleaseUnfold(target, version, date, [f]);
    HeadingText(version, date);
    IntroText(target, version);
    BodyText(ReleaseIntro(target, version), h, b);
  }

  lemma HeadingText(version: string, date: string)
    ensures ReleaseHeading(version, date) == "## [" + version + "] \U{2014} " + date
  {
    assert "]" + " \U{2014} " == "] \U{2014} ";
  }

  lemma IntroText(target: Target, version: string)
    ensures ReleaseIntro(target, version)
         == if TargetName(target) == "spec" then "Spec version: `" + version + "`" else "Implements AHP " + version + "."
  {
    hide TargetName;
    SpecName(target);
  }

  lemma BodyText(intro: string, heading: string, bullet: string)
    ensures BodyLines(intro, [heading, "", bullet]) == ["", intro, "", heading, "", bullet, ""]
  {
  }

  lemma SpecName(target: Target)
    ensures TargetName(target) == "spec" <==> target == Spec
  {
    assert TargetNamed(TargetName(target)) == Some(target) && TargetNamed("spec") == Some(Spec);
  }

  lemma OneIssue(f: Fragment)
    requires |f.issues| == 1
    ensures Bullet(f) == "- " + f.message + " (#" + Numeral(f.issues[0]) + ")"
  {
    hide Numeral;
    var list := "#" + Numeral(f.issues[0]);
    assert " (" + list + ")" == " (#" + Numeral(f.issues[0]) + ")";
    assert "- " + f.message + (" (" + list + ")") == "- " + f.message + " (#" + Numeral(f.issues[0]) + ")";
  }

  lemma {:induction false} OneGroups(lines: seq<string>, types: seq<ChangeType>, f: Fragment, target: Target)
    requires target in f.targets && Distinct(types)
    ensures AppendTypes(lines, types, [f], target) == if f.kind in types then AppendGroup(lines, f.kind, [f]) else lines
    decreases |types|
  {
    hide AppendGroup;
    if types != [] {
      assert [f][1..] == [];
      assert types == [types[0]] + types[1..];
      assert forall i :: 0 <= i < |types[1..]| ==> types[1..][i] == types[i + 1];
      assert Group([f], target, types[0]) == if f.kind == types[0] then [f] else [];
      OneGroups(if f.kind == types[0] then AppendGroup(lines, f.kind, [f]) else lines, types[1..], f, target);
      assert f.kind == types[0] ==> f.kind !in types[1..];
    }
  }

  lemma OneGroup(f: Fragment, target: Target)
    requires target in f.targets
    ensures ChangeLines([f], target) == [TypeHeading(f.kind), "", Bullet(f)]
  {
    hide *;
    AllTypesListed(f.kind);
    OneGroups([], CHANGE_TYPES, f, target);
    TypesInOrder([f], target);
    GroupAlone(f);
  }

  lemma GroupAlone(f: Fragment)
    ensures AppendGroup([], f.kind, [f]) == [TypeHeading(f.kind), "", Bullet(f)]
  {
    hide Bullet, TypeHeading;
    assert Bullets([f]) == [Bullet(f)];
  }

  /** Releasing a version again without fragments only tidies the text: line ends and its end. */
  lemma EmptyReleaseTidies(markdown: string, target: Target, version: string, date: string, i: nat)
    requires i < |Parse(markdown).sections| && "## [" + version + "]" <= Parse(markdown).sections[i].heading
    ensures Apply(markdown, target, version, date, []) == Some(TrimEnd(NormalizeNewlines(markdown)) + "\n")
  {
    hide Parse, Render, Release, TrimEnd, NormalizeNewlines;
    var sections := Parse(markdown).sections;
    assert IsReleaseOf(sections[i], version);
    var k := FindRelease(sections, version);
    hide FindRelease;
  }

  /** A release is refused exactly when no section is a release of the version and none is called
      Unreleased. */
  lemma RefusedExactly(markdown: string, target: Target, version: string, date: string, fragments: seq<Fragment>)
    ensures Apply(markdown, target, version, date, fragments) == None
       <==> forall i :: 0 <= i < |Parse(markdown).sections| ==>
              && Parse(markdown).sections[i].heading != "## [Unreleased]"
              && !("## [" + version + "]" <= Parse(markdown).sections[i].heading)
  {
    hide Parse, Render, Release, Canonical;
    var sections := Parse(markdown).sections;
    var k, u := FindRelease(sections, version), FindUnreleased(sections);
    hide FindRelease, FindUnreleased;
  }
}
