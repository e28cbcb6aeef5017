/** Changelog text as a preamble followed by `## ` sections, and back. */
module Markdown {
  import opened JsText

  datatype Section = Section(heading: string, body: seq<string>)

  datatype Document = Document(preamble: seq<string>, sections: seq<Section>)

  predicate IsHeading(line: string) {
    "## " <= line
  }

  /** A heading is `## ` and a title; deeper headings are not. */
  lemma HeadingExactly(line: string)
    ensures IsHeading(line) <==> exists title :: line == "## " + title
  {
    if IsHeading(line) {
      assert line == "## " + line[3..];
    }
  }

  predicate NoHeading(lines: seq<string>) {
    forall i :: 0 <= i < |lines| ==> !IsHeading(lines[i])
  }

  // ---- lines to document and back

  /** The first heading at or after `from`, or the number of lines. */
  function NextHeading(lines: seq<string>, from: nat): (r: nat)
    requires from <= |lines|
    ensures from <= r <= |lines|
    ensures forall i :: from <= i < r ==> !IsHeading(lines[i])
    ensures r < |lines| ==> IsHeading(lines[r])
    decreases |lines| - from
  {
    if from == |lines| || IsHeading(lines[from]) then from else NextHeading(lines, from + 1)
  }

  /** The sections of lines that start with a heading. */
  function SectionsOf(lines: seq<string>): seq<Section>
    decreases |lines|
  {
    if lines == [] then []
    else
      var end := NextHeading(lines, 1);
      [Section(lines[0], lines[1..end])] + SectionsOf(lines[end..])
  }

  function ParseLines(lines: seq<string>): Document {
    var first := NextHeading(lines, 0);
    Document(lines[..first], SectionsOf(lines[first..]))
  }

  function FlattenSections(sections: seq<Section>): seq<string> {
    if sections == [] then []
    else [sections[0].heading] + sections[0].body + FlattenSections(sections[1..])
  }

  function Flatten(d: Document): seq<string> {
    d.preamble + FlattenSections(d.sections)
  }

  predicate WellFormedSection(s: Section) {
    IsHeading(s.heading) && NoHeading(s.body)
  }

  predicate WellFormed(d: Document) {
    NoHeading(d.preamble) && forall i :: 0 <= i < |d.sections| ==> WellFormedSection(d.sections[i])
  }

  lemma FlattenSectionsCons(s: Section, rest: seq<Section>)
    ensures FlattenSections([s] + rest) == [s.heading] + s.body + FlattenSections(rest)
  {
    assert ([s] + rest)[1..] == rest;
  }

  lemma {:induction false} FlattenSectionsConcat(a: seq<Section>, b: seq<Section>)
    ensures FlattenSections(a + b) == FlattenSections(a) + FlattenSections(b)
  {
    if a == [] {
      assert a + b == b;
    } else {
      hide FlattenSections;
      FlattenSectionsConcat(a[1..], b);
      assert a == [a[0]] + a[1..] && a + b == [a[0]] + (a[1..] + b);
      FlattenSectionsCons(a[0], a[1..]);
      FlattenSectionsCons(a[0], a[1..] + b);
      ConcatAssoc([a[0].heading] + a[0].body, FlattenSections(a[1..]), FlattenSections(b));
    }
  }

  lemma SectionsUnfold(lines: seq<string>, end: nat)
    requires lines != [] && end == NextHeading(lines, 1)
    ensures SectionsOf(lines) == [Section(lines[0], lines[1..end])] + SectionsOf(lines[end..])
  {
  }

  lemma {:induction false} SectionsCoverLines(lines: seq<string>)
    requires lines == [] || IsHeading(lines[0])
    ensures FlattenSections(SectionsOf(lines)) == lines
    ensures forall i :: 0 <= i < |SectionsOf(lines)| ==> WellFormedSection(SectionsOf(lines)[i])
    decreases |lines|
  {
    if lines != [] {
      hide SectionsOf, FlattenSections, NextHeading;
      var end := NextHeading(lines, 1);
      SectionsCoverLines(lines[end..]);
      SectionsUnfold(lines, end);
      FlattenSectionsCons(Section(lines[0], lines[1..end]), SectionsOf(lines[end..]));
      assert lines == [lines[0]] + lines[1..end] + lines[end..];
    }
  }

  /** Every sequence of lines is cut into a well-formed document that contains all of them. */
  lemma FlattenAfterParse(lines: seq<string>)
    ensures Flatten(ParseLines(lines)) == lines && WellFormed(ParseLines(lines))
  {
    var first := NextHeading(lines, 0);
    SectionsCoverLines(lines[first..]);
    assert lines == lines[..first] + lines[first..];
  }

  lemma NextHeadingSkips(a: seq<string>, b: seq<string>, from: nat)
    requires from <= |a| && NoHeading(a[from..])
    requires b == [] || IsHeading(b[0])
    ensures NextHeading(a + b, from) == |a|
    decreases |a| - from
  {
    if from < |a| {
      assert !IsHeading(a[from..][0]);
      assert a[from..][1..] == a[from + 1..];
      NextHeadingSkips(a, b, from + 1);
    }
  }

  lemma FlattenStartsWithHeading(sections: seq<Section>)
    requires forall i :: 0 <= i < |sections| ==> WellFormedSection(sections[i])
    ensures FlattenSections(sections) == [] || IsHeading(FlattenSections(sections)[0])
  {
  }

  lemma {:induction false} SectionsAfterFlatten(sections: seq<Section>)
    requires forall i :: 0 <= i < |sections| ==> WellFormedSection(sections[i])
    ensures SectionsOf(FlattenSections(sections)) == sections
    decreases |sections|
  {
    if sections != [] {
      var s, rest := sections[0], FlattenSections(sections[1..]);
      var head := [s.heading] + s.body;
      var lines := head + rest;
      FlattenStartsWithHeading(sections[1..]);
      assert head[1..] == s.body;
      NextHeadingSkips(head, rest, 1);
      assert lines[1..|head|] == s.body && lines[|head|..] == rest;
      SectionsAfterFlatten(sections[1..]);
      assert [s] + sections[1..] == sections;
    }
  }

  /** Well-formed documents and sequences of lines are in one-to-one correspondence. */
  lemma ParseAfterFlatten(d: Document)
    requires WellFormed(d)
    ensures ParseLines(Flatten(d)) == d
  {
    var rest := FlattenSections(d.sections);
    FlattenStartsWithHeading(d.sections);
    assert d.preamble[0..] == d.preamble;
    NextHeadingSkips(d.preamble, rest, 0);
    SectionsAfterFlatten(d.sections);
    assert Flatten(d)[..|d.preamble|] == d.preamble && Flatten(d)[|d.preamble|..] == rest;
  }

  // ---- text to document and back

  /** The text with `\r\n` replaced and trailing white space cut. */
  function Canonical(markdown: string): string {
    TrimEnd(NormalizeNewlines(markdown))
  }

  function Parse(markdown: string): Document {
    ParseLines(Split(Canonical(markdown), '\n'))
  }

  function Render(d: Document): string {
    TrimEnd(Join(Flatten(d), '\n')) + "\n"
  }

  /** Rendering what was parsed gives the canonical text plus one newline, for every text. */
  lemma RenderAfterParse(markdown: string)
    ensures Render(Parse(markdown)) == TrimEnd(NormalizeNewlines(markdown)) + "\n"
    ensures WellFormed(Parse(markdown))
  {
    var text := Canonical(markdown);
    FlattenAfterParse(Split(text, '\n'));
    JoinSplit(text, '\n');
  }

  predicate NewlineFree(lines: seq<string>) {
    forall i :: 0 <= i < |lines| ==> '\n' !in lines[i]
  }

  predicate EndsTight(text: string) {
    text == "" || !IsSpace(text[|text| - 1])
  }

  lemma {:induction false} NormalizeShrinks(s: string)
    ensures |NormalizeNewlines(s)| <= |s|
    ensures HasPair(s, '\r', '\n') ==> |NormalizeNewlines(s)| < |s|
  {
    if |s| >= 2 && s[0] == '\r' && s[1] == '\n' {
      NormalizeShrinks(s[2..]);
    } else if s != "" {
      NormalizeShrinks(s[1..]);
      if HasPair(s, '\r', '\n') {
        var i :| 0 <= i < |s| - 1 && s[i] == '\r' && s[i + 1] == '\n';
        assert i > 0;
        assert s[1..][i - 1] == '\r' && s[1..][i - 1 + 1] == '\n';
      }
    }
  }

  lemma NormalizeCons(c: char, rest: string)
    requires c != '\r' || rest == "" || rest[0] != '\n'
    ensures NormalizeNewlines([c] + rest) == [c] + NormalizeNewlines(rest)
  {
    assert ([c] + rest)[1..] == rest;
  }

  lemma NormalizePair(rest: string)
    ensures NormalizeNewlines("\r\n" + rest) == "\n" + NormalizeNewlines(rest)
  {
    assert ("\r\n" + rest)[2..] == rest;
  }

  lemma {:induction false} NormalizeConcat(a: string, b: string)
    requires a == "" || b == "" || a[|a| - 1] != '\r' || b[0] != '\n'
    ensures NormalizeNewlines(a + b) == NormalizeNewlines(a) + NormalizeNewlines(b)
  {
    if a == "" {
      assert a + b == b;
    } else {
      hide NormalizeNewlines;
      if |a| >= 2 && a[0] == '\r' && a[1] == '\n' {
        var rest := a[2..];
        assert a == "\r\n" + rest && a + b == "\r\n" + (rest + b);
        NormalizeConcat(rest, b);
        NormalizePair(rest);
        NormalizePair(rest + b);
      } else {
        var rest := a[1..];
        assert a == [a[0]] + rest && a + b == [a[0]] + (rest + b);
        NormalizeConcat(rest, b);
        NormalizeCons(a[0], rest);
        NormalizeCons(a[0], rest + b);
      }
    }
  }

  lemma NormalizeNewline()
    ensures NormalizeNewlines("\n") == "\n" && NormalizeNewlines("\r\n") == "\n"
  {
    assert "\n"[1..] == "" && "\r\n"[2..] == "";
  }

  lemma NormalizeKeepsEnd(s: string)
    requires s != "" && s[|s| - 1] != '\r'
    ensures NormalizeNewlines(s + "\n") == NormalizeNewlines(s) + "\n"
  {
    NormalizeNewline();
    NormalizeConcat(s, "\n");
  }

  /** The documents that survive rendering: there is a line, the text ends in a non-blank
      character (or is one empty line), and no line but the last ends in `\r`. */
  predicate Stable(d: Document) {
    var text := Join(Flatten(d), '\n');
    Flatten(d) != [] && EndsTight(text) && !HasPair(text, '\r', '\n')
  }

  lemma StableSurvives(d: Document)
    requires WellFormed(d) && NewlineFree(Flatten(d)) && Stable(d)
    ensures Parse(Render(d)) == d
  {
    hide TrimEnd, NormalizeNewlines, Split, Join, ParseLines, SectionsOf, Flatten, FlattenSections;
    var lines := Flatten(d);
    var text := Join(lines, '\n');
    TrimEndOfSpaced(text, "");
    assert text + "" == text;
    CanonicalOfCore(text);
    NormalizeIdentity(text);
    SplitJoin(lines, '\n');
    ParseAfterFlatten(d);
  }

  lemma SurvivorIsStable(d: Document)
    requires Parse(Render(d)) == d
    ensures Stable(d)
  {
    hide TrimEnd, NormalizeNewlines, Split, Join, ParseLines, SectionsOf, Flatten, FlattenSections;
    var text := Join(Flatten(d), '\n');
    var core := TrimEnd(text);
    CanonicalOfCore(core);
    var back := Canonical(Render(d));
    FlattenAfterParse(Split(back, '\n'));
    JoinSplit(back, '\n');
    assert text == back == TrimEnd(NormalizeNewlines(core));
    NormalizeShrinks(core);
    assert |core| <= |text| && core == text[..|core|];
  }

  /** Parsing undoes rendering exactly on the stable documents. */
  lemma ParseAfterRender(d: Document)
    requires WellFormed(d) && NewlineFree(Flatten(d))
    ensures Parse(Render(d)) == d <==> Stable(d)
  {
    if Stable(d) {
      StableSurvives(d);
    }
    if Parse(Render(d)) == d {
      SurvivorIsStable(d);
    }
  }

  lemma CanonicalOfCore(core: string)
    requires EndsTight(core)
    ensures Canonical(core + "\n") == TrimEnd(NormalizeNewlines(core))
  {
    hide TrimEnd;
    if core == "" {
      assert core + "\n" == "\n";
      NormalizeNewline();
    } else {
      assert !IsSpace(core[|core| - 1]);
      NormalizeKeepsEnd(core);
    }
    hide NormalizeNewlines;
    TrimEndDropsNewline(NormalizeNewlines(core));
  }

  lemma TrimEndDropsNewline(s: string)
    ensures TrimEnd(s + "\n") == TrimEnd(s)
  {
    assert (s + "\n")[..|s|] == s;
  }

  // ---- the emitted loops

  method ParseMarkdownSections(markdown: string) returns (d: Document)
    ensures d == Parse(markdown)
  {
    hide Split, TrimEnd, NormalizeNewlines, SectionsOf;
    var lines := Split(TrimEnd(NormalizeNewlines(markdown)), '\n');
    var first := 0;
    while first < |lines| && !IsHeading(lines[first])
      invariant first <= |lines|
      invariant NextHeading(lines, first) == NextHeading(lines, 0)
    {
      first := first + 1;
    }
    if first == |lines| {
      assert lines[..first] == lines && lines[first..] == [];
      NoSections();
      return Document(lines, []);
    }
    var sections: seq<Section> := [];
    var index := first;
    while index < |lines|
      invariant first <= index <= |lines|
      invariant index < |lines| ==> IsHeading(lines[index])
      invariant SectionsOf(lines[first..]) == sections + SectionsOf(lines[index..])
    {
      var end := index + 1;
      while end < |lines| && !IsHeading(lines[end])
        invariant index < end <= |lines|
        invariant forall k :: index < k < end ==> !IsHeading(lines[k])
      {
        end := end + 1;
      }
      SectionsStep(lines, index, end);
      sections := sections + [Section(lines[index], lines[index + 1..end])];
      index := end;
    }
    NoSections();
    assert lines[index..] == [] && sections + [] == sections;
    d := Document(lines[..first], sections);
  }

  lemma NoSections()
    ensures SectionsOf([]) == []
  {
  }

  lemma SectionsStep(lines: seq<string>, index: nat, end: nat)
    requires index < end <= |lines|
    requires forall k :: index < k < end ==> !IsHeading(lines[k])
    requires end < |lines| ==> IsHeading(lines[end])
    ensures SectionsOf(lines[index..])
         == [Section(lines[index], lines[index + 1..end])] + SectionsOf(lines[end..])
  {
    hide SectionsOf;
    var here, head, rest := lines[index..], lines[index..end], lines[end..];
    SectionsUnfold(here, NextHeading(here, 1));
    assert here == head + rest;
    assert head[1..] == lines[index + 1..end];
    NextHeadingSkips(head, rest, 1);
    assert here[1..end - index] == lines[index + 1..end] && here[end - index..] == rest;
  }

  method RenderMarkdownSections(preamble: seq<string>, sections: seq<Section>) returns (text: string)
    ensures text == Render(Document(preamble, sections))
  {
    var lines := preamble;
    for i := 0 to |sections|
      invariant lines + FlattenSections(sections[i..]) == Flatten(Document(preamble, sections))
    {
      assert sections[i..][1..] == sections[i + 1..];
      lines := lines + [sections[i].heading] + sections[i].body;
    }
    assert lines == Flatten(Document(preamble, sections)) by {
      assert FlattenSections(sections[|sections|..]) == [];
    }
    text := TrimEnd(Join(lines, '\n')) + "\n";
  }
}
