/** Writing a release section into a changelog (`applyReleaseToChangelog`). */
module Changelog {
  import opened JsText
  import opened Decimal
  import opened Markdown
  import opened Fragments
  import opened ChangeSections

  const UNRELEASED: string := "## [Unreleased]"

  function ReleasePrefix(version: string): string {
    "## [" + version + "]"
  }

  function ReleaseHeading(version: string, date: string): string {
    ReleasePrefix(version) + " \U{2014} " + date
  }

  function ReleaseIntro(target: Target, version: string): string {
    if target.Spec? then "Spec version: `" + version + "`" else "Implements AHP " + version + "."
  }

  function BodyLines(intro: string, change: seq<string>): seq<string> {
    ["", intro] + (if change == [] then [] else [""] + change) + [""]
  }

  function ReleaseBody(target: Target, version: string, fragments: seq<Fragment>): seq<string> {
    BodyLines(ReleaseIntro(target, version), ChangeLines(fragments, target))
  }

  function Release(target: Target, version: string, date: string, fragments: seq<Fragment>): Section {
    Section(ReleaseHeading(version, date), ReleaseBody(target, version, fragments))
  }

  predicate IsReleaseOf(s: Section, version: string) {
    ReleasePrefix(version) <= s.heading
  }

  /** `findIndex`, with the length for "not found". */
  function FindRelease(sections: seq<Section>, version: string): (r: nat)
    ensures r <= |sections|
    ensures r < |sections| ==> IsReleaseOf(sections[r], version)
    ensures forall i :: 0 <= i < r ==> !IsReleaseOf(sections[i], version)
  {
    if sections == [] || IsReleaseOf(sections[0], version) then 0 else 1 + FindRelease(sections[1..], version)
  }

  function FindUnreleased(sections: seq<Section>): (r: nat)
    ensures r <= |sections|
    ensures r < |sections| ==> sections[r].heading == UNRELEASED
    ensures forall i :: 0 <= i < r ==> sections[i].heading != UNRELEASED
  {
    if sections == [] || sections[0].heading == UNRELEASED then 0 else 1 + FindUnreleased(sections[1..])
  }

  /** Where the release goes: what stays before it, the section it replaces, what stays after. */
  datatype Place = Place(before: seq<Section>, replaced: seq<Section>, after: seq<Section>)

  /** An existing section of the version is replaced; otherwise the release goes right after
      the first Unreleased section; without either there is no place. */
  function PlaceFor(sections: seq<Section>, version: string): Option<Place> {
    var k := FindRelease(sections, version);
    if k < |sections| then Some(Place(sections[..k], [sections[k]], sections[k + 1..]))
    else
      var u := FindUnreleased(sections);
      if u < |sections| then Some(Place(sections[..u + 1], [], sections[u + 1..])) else None
  }

  /** The new text, or nothing where the original throws. */
  function Apply(markdown: string, target: Target, version: string, date: string, fragments: seq<Fragment>): Option<string> {
    var d := Parse(markdown);
    match PlaceFor(d.sections, version)
    case None => None
    case Some(p) =>
      if p.replaced != [] && fragments == [] then Some(Canonical(markdown) + "\n")
      else Some(Render(Document(d.preamble, p.before + [Release(target, version, date, fragments)] + p.after)))
  }

  method ReleaseSectionBody(target: Target, version: string, fragments: seq<Fragment>) returns (body: seq<string>)
    ensures body == ReleaseBody(target, version, fragments)
  {
    var change := RenderChangeSections(fragments, target);
    hide ReleaseIntro, ChangeLines;
    body := ["", ReleaseIntro(target, version)];
    if |change| > 0 {
      body := body + ([""] + change);
    }
    body := body + [""];
  }

  method ApplyReleaseToChangelog(markdown: string, target: Target, version: string, date: string, fragments: seq<Fragment>)
    returns (r: Option<string>)
    ensures r == Apply(markdown, target, version, date, fragments)
  {
    hide Parse, Render, ReleaseBody, ReleaseHeading, Canonical, IsReleaseOf;
    var parsed := ParseMarkdownSections(markdown);
    var body := ReleaseSectionBody(target, version, fragments);
    var section := Section(ReleaseHeading(version, date), body);
    var existing := FindRelease(parsed.sections, version);
    if existing < |parsed.sections| {
      if |fragments| == 0 {
        return Some(Canonical(markdown) + "\n");
      }
      var next := parsed.sections[existing := section];
      assert next == parsed.sections[..existing] + [section] + parsed.sections[existing + 1..];
      var text := RenderMarkdownSections(parsed.preamble, next);
      return Some(text);
    }
    var unreleased := FindUnreleased(parsed.sections);
    if unreleased == |parsed.sections| {
      return None;
    }
    var next := parsed.sections[..unreleased + 1] + [section] + parsed.sections[unreleased + 1..];
    var text := RenderMarkdownSections(parsed.preamble, next);
    r := Some(text);
  }

  // ---- arguments

  /** Text made of digits, dots and dashes: all that a version or a date argument contains. */
  predicate Plain(s: string) {
    s != "" && forall i :: 0 <= i < |s| ==> IsDigit(s[i]) || s[i] == '.' || s[i] == '-'
  }

  /** `^\d+\.\d+\.\d+$`. */
  predicate IsVersionArgument(s: string) {
    var parts := Split(s, '.');
    |parts| == 3 && forall i :: 0 <= i < 3 ==> parts[i] != "" && AllDigits(parts[i])
  }

  /** `^\d{4}-\d{2}-\d{2}$`. */
  predicate IsDateArgument(s: string) {
    |s| == 10 && forall i :: 0 <= i < 10 ==> if i == 4 || i == 7 then s[i] == '-' else IsDigit(s[i])
  }

  lemma ArgumentsArePlain(version: string, date: string)
    ensures IsVersionArgument(version) ==> Plain(version)
    ensures IsDateArgument(date) ==> Plain(date)
  {
    if IsVersionArgument(version) {
      JoinSplit(version, '.');
      var parts := Split(version, '.');
      assert Join(parts[1..], '.') == parts[1] + ['.'] + parts[2];
      assert version == parts[0] + ['.'] + (parts[1] + ['.'] + parts[2]);
    }
  }

  predicate Digits(s: string) {
    s != "" && AllDigits(s)
  }

  ghost predicate DottedVersion(s: string) {
    exists a, b, c :: Digits(a) && Digits(b) && Digits(c) && s == a + "." + b + "." + c
  }

  ghost predicate CalendarDate(s: string) {
    exists y, m, d :: Digits(y) && Digits(m) && Digits(d) && |y| == 4 && |m| == |d| == 2 && s == y + "-" + m + "-" + d
  }

  lemma DotsSplit(a: string, b: string, c: string)
    requires Digits(a) && Digits(b) && Digits(c)
    ensures Split(a + "." + b + "." + c, '.') == [a, b, c]
  {
    var parts := [a, b, c];
    assert Join(parts[1..], '.') == b + ['.'] + c;
    assert a + "." + b + "." + c == Join(parts, '.');
    SplitJoin(parts, '.');
  }

  lemma DotsJoin(s: string)
    requires IsVersionArgument(s)
    ensures (var parts := Split(s, '.'); s == parts[0] + "." + parts[1] + "." + parts[2])
  {
    JoinSplit(s, '.');
    var parts := Split(s, '.');
    assert Join(parts[1..], '.') == parts[1] + ['.'] + parts[2];
    assert parts[0] + ['.'] + (parts[1] + ['.'] + parts[2]) == parts[0] + "." + parts[1] + "." + parts[2];
  }

  /** A version argument is three digit strings with dots between them, leading zeros allowed. */
  lemma VersionExactly(s: string)
    ensures IsVersionArgument(s) <==> DottedVersion(s)
  {
    hide AllDigits, Split;
    if IsVersionArgument(s) {
      DotsJoin(s);
      var parts := Split(s, '.');
      assert Digits(parts[0]) && Digits(parts[1]) && Digits(parts[2]);
    }
    if DottedVersion(s) {
      var a, b, c :| Digits(a) && Digits(b) && Digits(c) && s == a + "." + b + "." + c;
      DotsSplit(a, b, c);
    }
  }

  /** In particular every version that is written without leading zeros. */
  lemma NumbersAreVersions(a: nat, b: nat, c: nat)
    ensures IsVersionArgument(Numeral(a) + "." + Numeral(b) + "." + Numeral(c))
  {
    NumeralRoundTrip(a);
    NumeralRoundTrip(b);
    NumeralRoundTrip(c);
    hide Numeral, AllDigits, Split, IsVersionArgument;
    VersionExactly(Numeral(a) + "." + Numeral(b) + "." + Numeral(c));
    assert Digits(Numeral(a)) && Digits(Numeral(b)) && Digits(Numeral(c));
  }

  /** A date argument is four, two and two digits with dashes between them. */
  lemma DateExactly(s: string)
    ensures IsDateArgument(s) <==> CalendarDate(s)
  {
    if IsDateArgument(s) {
      var y, m, d := s[..4], s[5..7], s[8..];
      assert s == y + "-" + m + "-" + d;
      assert Digits(y) && Digits(m) && Digits(d);
    }
    if CalendarDate(s) {
      var y, m, d :| Digits(y) && Digits(m) && Digits(d) && |y| == 4 && |m| == |d| == 2 && s == y + "-" + m + "-" + d;
      assert forall i :: 0 <= i < 4 ==> s[i] == y[i];
      assert forall i :: 0 <= i < 2 ==> s[5 + i] == m[i] && s[8 + i] == d[i];
    }
  }

  // ---- the release section as text

  lemma PlainIsLineText(s: string)
    requires Plain(s)
    ensures LineText(s)
  {
    assert IsDigit(s[|s| - 1]) || s[|s| - 1] == '.' || s[|s| - 1] == '-';
  }

  lemma HeadingIsSafe(version: string, date: string)
    requires Plain(version) && Plain(date)
    ensures LineText(ReleaseHeading(version, date)) && IsHeading(ReleaseHeading(version, date))
    ensures ReleasePrefix(version) <= ReleaseHeading(version, date)
  {
    PlainIsLineText(version);
    PlainIsLineText(date);
    var h := ReleaseHeading(version, date);
    assert h[|h| - 1] == date[|date| - 1];
    assert h[..3] == "## ";
  }

  lemma IntroIsSafe(target: Target, version: string)
    requires Plain(version)
    ensures SafeLine(ReleaseIntro(target, version)) && ReleaseIntro(target, version) != ""
    ensures !IsBullet(ReleaseIntro(target, version))
  {
    PlainIsLineText(version);
    var intro := ReleaseIntro(target, version);
    assert intro[0] == if target.Spec? then 'S' else 'I';
    assert intro[|intro| - 1] == if target.Spec? then '`' else '.';
  }

  /** The section without the blank line at its end, which a final section loses. */
  function Tightened(s: Section): Section
    requires s.body != []
  {
    s.(body := s.body[..|s.body| - 1])
  }

  predicate EndsInBlankLine(body: seq<string>) {
    |body| >= 2 && body[|body| - 1] == "" && body[|body| - 2] != ""
  }

  lemma BodyIsSafe(intro: string, change: seq<string>)
    requires SafeLine(intro) && intro != "" && SafeLines(change)
    requires change != [] ==> change[|change| - 1] != ""
    ensures SafeLines(BodyLines(intro, change)) && EndsInBlankLine(BodyLines(intro, change))
  {
    EmptyIsSafe();
    hide SafeLine;
  }

  lemma ReleaseIsSafe(target: Target, version: string, date: string, fragments: seq<Fragment>)
    requires Plain(version) && Plain(date) && AllValid(fragments)
    ensures var s := Release(target, version, date, fragments);
            && LineText(s.heading) && IsHeading(s.heading) && IsReleaseOf(s, version)
            && SafeLines(s.body) && EndsInBlankLine(s.body)
  {
    HeadingIsSafe(version, date);
    IntroIsSafe(target, version);
    ChangeLinesSafe(fragments, target);
    ChangeLinesLaidOut(fragments, target);
    hide *;
    LaidOutEnd(ChangeLines(fragments, target));
    BodyIsSafe(ReleaseIntro(target, version), ChangeLines(fragments, target));
    ReleaseUnfold(target, version, date, fragments);
  }

  lemma ReleaseUnfold(target: Target, version: string, date: string, fragments: seq<Fragment>)
    ensures var s := Release(target, version, date, fragments);
            && s.heading == ReleaseHeading(version, date)
            && s.body == BodyLines(ReleaseIntro(target, version), ChangeLines(fragments, target))
            && (IsReleaseOf(s, version) <==> ReleasePrefix(version) <= s.heading)
  {
  }

  lemma LaidOutEnd(lines: seq<string>)
    requires LaidOut(lines)
    ensures lines != [] ==> lines[|lines| - 1] != ""
  {
  }

  lemma EmptyIsSafe()
    ensures SafeLine("")
  {
  }
}
