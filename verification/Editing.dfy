/** What writing a release does to the rest of a changelog, and what writing it twice does. */
module Editing {
  import opened JsText
  import opened Markdown
  import opened Fragments
  import opened ChangeSections
  import opened Changelog
  import opened Reparse

  // ---- documents with one section put in

  /** The document with `s` between the sections before and after. */
  function With(preamble: seq<string>, before: seq<Section>, s: Section, after: seq<Section>): Document {
    Document(preamble, before + [s] + after)
  }

  /** A final section loses the blank line at its end when the text is written. */
  function Settled(s: Section, after: seq<Section>): Section {
    if after == [] && s.body != [] then Tightened(s) else s
  }

  predicate SafeSection(s: Section) {
    LineText(s.heading) && IsHeading(s.heading) && SafeLines(s.body) && EndsInBlankLine(s.body)
  }

  function SectionLines(s: Section): seq<string> {
    [s.heading] + s.body
  }

  lemma FlattenOne(s: Section)
    ensures FlattenSections([s]) == SectionLines(s)
  {
    FlattenSectionsCons(s, []);
    assert [s] + [] == [s] && FlattenSections([]) == [];
  }

  lemma FlattenWith(preamble: seq<string>, before: seq<Section>, s: Section, after: seq<Section>)
    ensures Flatten(With(preamble, before, s, after))
         == preamble + (FlattenSections(before) + SectionLines(s) + FlattenSections(after))
  {
    hide FlattenSections, SectionLines;
    FlattenSectionsConcat(before + [s], after);
    FlattenSectionsConcat(before, [s]);
    FlattenOne(s);
  }

  /** The surroundings of the place are sections of a well-formed document whose text, when
      the place is followed by anything, ends in a non-blank character. */
  predicate Surroundings(preamble: seq<string>, before: seq<Section>, after: seq<Section>) {
    && NoHeading(preamble) && NewlineFree(preamble)
    && (forall i :: 0 <= i < |before| ==> WellFormedSection(before[i]))
    && (forall i :: 0 <= i < |after| ==> WellFormedSection(after[i]))
    && NewlineFree(FlattenSections(before)) && NewlineFree(FlattenSections(after))
    && (after != [] ==> TightLines(FlattenSections(after)))
  }

  lemma SafeSectionFacts(s: Section, after: seq<Section>)
    requires SafeSection(s)
    ensures WellFormedSection(s) && WellFormedSection(Settled(s, after))
    ensures NewlineFree(SectionLines(s)) && NewlineFree(SectionLines(Settled(s, after)))
    ensures TightLines(SectionLines(Tightened(s)))
    ensures SectionLines(s) == SectionLines(Tightened(s)) + [""]
  {
    assert !IsHeading("");
    var body := s.body;
    forall i | 0 <= i < |body| ensures !IsHeading(body[i]) && '\n' !in body[i] {
      assert SafeLine(body[i]);
    }
    assert SafeLine(body[|body| - 2]);
    hide IsHeading, SafeLine;
    assert body == body[..|body| - 1] + [""];
    var lines := SectionLines(Tightened(s));
    assert lines[|lines| - 1] == body[|body| - 2];
  }

  /** Putting a safe section in leaves a tight document. */
  lemma WithIsTight(preamble: seq<string>, before: seq<Section>, s: Section, after: seq<Section>)
    requires Surroundings(preamble, before, after) && SafeSection(s)
    ensures TightDocument(With(preamble, before, Settled(s, after), after))
  {
    var x := Settled(s, after);
    var d := With(preamble, before, x, after);
    SafeSectionFacts(s, after);
    FlattenWith(preamble, before, x, after);
    hide FlattenSections, WellFormedSection, SafeSection, SectionLines, Settled, Flatten, EndsInText;
    var lines := Flatten(d);
    var front := preamble + (FlattenSections(before) + SectionLines(x));
    if after == [] {
      FlattenNone();
      assert x == Tightened(s) by { SettledMeans(s, after); }
      assert lines == front;
      assert lines[|lines| - 1] == SectionLines(x)[|SectionLines(x)| - 1];
    } else {
      var tail := FlattenSections(after);
      assert lines[|lines| - 1] == tail[|tail| - 1];
    }
  }

  lemma FlattenNone()
    ensures FlattenSections([]) == []
  {
  }

  lemma SettledMeans(s: Section, after: seq<Section>)
    requires SafeSection(s)
    ensures Settled(s, after) == if after == [] then Tightened(s) else s
  {
  }

  lemma {:induction false} JoinBlank(lines: seq<string>)
    requires lines != []
    ensures Join(lines + [""], '\n') == Join(lines, '\n') + "\n"
  {
    var longer := lines + [""];
    if |lines| == 1 {
      assert longer[1..] == [""];
    } else {
      assert longer[1..] == lines[1..] + [""];
      JoinBlank(lines[1..]);
    }
  }

  /** The text is the same whether or not a final section keeps its blank line. */
  lemma RenderSettles(preamble: seq<string>, before: seq<Section>, s: Section, after: seq<Section>)
    requires SafeSection(s)
    ensures Render(With(preamble, before, s, after)) == Render(With(preamble, before, Settled(s, after), after))
  {
    SettledMeans(s, after);
    if after == [] {
      SafeSectionFacts(s, after);
      FlattenWith(preamble, before, s, after);
      FlattenWith(preamble, before, Tightened(s), after);
      FlattenNone();
      hide FlattenSections, SafeSection, SectionLines, Settled, Flatten, TrimEnd, Join;
      var lines := Flatten(With(preamble, before, Tightened(s), after));
      assert Flatten(With(preamble, before, s, after)) == lines + [""];
      TightNotEmpty(SectionLines(Tightened(s)));
      JoinBlank(lines);
      TrimEndDropsNewline(Join(lines, '\n'));
    }
  }

  lemma TightNotEmpty(lines: seq<string>)
    requires TightLines(lines)
    ensures lines != []
  {
  }

  // ---- the place in a parsed changelog

  /** The place cuts the sections in three; nothing before it is a release of the version, and
      nothing at all is when no section is replaced. */
  lemma PlaceCuts(sections: seq<Section>, version: string, p: Place)
    requires PlaceFor(sections, version) == Some(p)
    ensures sections == p.before + p.replaced + p.after
    ensures |p.replaced| <= 1
    ensures forall i :: 0 <= i < |p.before| ==> !IsReleaseOf(p.before[i], version)
    ensures p.replaced == [] ==> forall i :: 0 <= i < |p.after| ==> !IsReleaseOf(p.after[i], version)
    ensures p.replaced == [] ==> p.before != [] && p.before[|p.before| - 1].heading == UNRELEASED
    ensures p.replaced != [] ==> IsReleaseOf(p.replaced[0], version)
  {
  }

  /** A section with the first release of the version found is where the place is. */
  lemma PlaceFound(before: seq<Section>, s: Section, after: seq<Section>, version: string)
    requires forall i :: 0 <= i < |before| ==> !IsReleaseOf(before[i], version)
    requires IsReleaseOf(s, version)
    ensures PlaceFor(before + [s] + after, version) == Some(Place(before, [s], after))
  {
    hide IsReleaseOf;
    var sections := before + [s] + after;
    var k := FindRelease(sections, version);
    assert sections[|before|] == s;
    assert forall i :: 0 <= i < |before| ==> sections[i] == before[i];
    assert k == |before|;
    assert sections[..k] == before && sections[k + 1..] == after;
  }

  lemma ParsedLines(markdown: string)
    ensures var d := Parse(markdown);
            && WellFormed(d) && NewlineFree(Flatten(d)) && Flatten(d) == Split(Canonical(markdown), '\n')
            && (d.sections != [] ==> TightLines(Flatten(d)))
  {
    var lines := Split(Canonical(markdown), '\n');
    FlattenAfterParse(lines);
    JoinSplit(Canonical(markdown), '\n');
    if Canonical(markdown) == "" {
      assert lines == [""];
    } else {
      CanonicalLinesTight(markdown);
    }
  }

  lemma FlattenCut(d: Document, p: Place)
    requires d.sections == p.before + p.replaced + p.after
    ensures Flatten(d)
         == d.preamble + (FlattenSections(p.before) + (FlattenSections(p.replaced) + FlattenSections(p.after)))
  {
    hide FlattenSections;
    FlattenSectionsConcat(p.before + p.replaced, p.after);
    FlattenSectionsConcat(p.before, p.replaced);
    ConcatAssoc(FlattenSections(p.before), FlattenSections(p.replaced), FlattenSections(p.after));
  }

  lemma CutSurroundings(d: Document, p: Place)
    requires WellFormed(d) && NewlineFree(Flatten(d)) && (d.sections != [] ==> TightLines(Flatten(d)))
    requires d.sections == p.before + p.replaced + p.after
    ensures Surroundings(d.preamble, p.before, p.after)
  {
    FlattenCut(d, p);
    hide FlattenSections, WellFormedSection, EndsInText, NewlineFree;
    var f2 := FlattenSections(p.replaced) + FlattenSections(p.after);
    var f1 := FlattenSections(p.before) + f2;
    NewlineFreeParts(d.preamble, f1);
    NewlineFreeParts(FlattenSections(p.before), f2);
    NewlineFreeParts(FlattenSections(p.replaced), FlattenSections(p.after));
    assert forall i :: 0 <= i < |p.before| ==> p.before[i] == d.sections[i];
    assert forall i :: 0 <= i < |p.after| ==> p.after[i] == d.sections[|p.before| + |p.replaced| + i];
    if p.after != [] {
      FlattenNotEmpty(p.after);
      var tail := FlattenSections(p.after);
      LastOfConcat(FlattenSections(p.replaced), tail);
      LastOfConcat(FlattenSections(p.before), f2);
      LastOfConcat(d.preamble, f1);
    }
  }

  lemma LastOfConcat<T>(a: seq<T>, b: seq<T>)
    requires b != []
    ensures (a + b)[|a + b| - 1] == b[|b| - 1]
  {
  }

  lemma PlaceSurroundings(markdown: string, version: string, p: Place)
    requires PlaceFor(Parse(markdown).sections, version) == Some(p)
    ensures Surroundings(Parse(markdown).preamble, p.before, p.after)
  {
    hide *;
    ParsedLines(markdown);
    PlaceCuts(Parse(markdown).sections, version, p);
    CutSurroundings(Parse(markdown), p);
  }

  lemma FlattenNotEmpty(sections: seq<Section>)
    requires sections != []
    ensures FlattenSections(sections) != []
  {
  }

  lemma NewlineFreeParts(a: seq<string>, b: seq<string>)
    requires NewlineFree(a + b)
    ensures NewlineFree(a) && NewlineFree(b)
  {
    assert forall i :: 0 <= i < |a| ==> a[i] == (a + b)[i];
    assert forall i :: 0 <= i < |b| ==> b[i] == (a + b)[|a| + i];
  }

  // ---- one release

  /** The document after the release, with the section as it is written. */
  function Edited(markdown: string, target: Target, version: string, date: string, fragments: seq<Fragment>, p: Place): Document {
    With(Parse(markdown).preamble, p.before, Settled(Release(target, version, date, fragments), p.after), p.after)
  }

  predicate GoodArguments(version: string, date: string, fragments: seq<Fragment>) {
    Plain(version) && Plain(date) && AllValid(fragments)
  }

  lemma ReleaseIsSafeSection(target: Target, version: string, date: string, fragments: seq<Fragment>)
    requires GoodArguments(version, date, fragments)
    ensures SafeSection(Release(target, version, date, fragments))
    ensures IsReleaseOf(Release(target, version, date, fragments), version)
  {
    ReleaseIsSafe(target, version, date, fragments);
  }

  /** A release that is written yields exactly the edited document, as a tight text. */
  lemma ApplyWrites(markdown: string, target: Target, version: string, date: string, fragments: seq<Fragment>, p: Place)
    requires GoodArguments(version, date, fragments)
    requires PlaceFor(Parse(markdown).sections, version) == Some(p) && (fragments != [] || p.replaced == [])
    ensures TightDocument(Edited(markdown, target, version, date, fragments, p))
    ensures Apply(markdown, target, version, date, fragments)
         == Some(Render(Edited(markdown, target, version, date, fragments, p)))
  {
    var s := Release(target, version, date, fragments);
    ReleaseIsSafeSection(target, version, date, fragments);
    PlaceSurroundings(markdown, version, p);
    WithIsTight(Parse(markdown).preamble, p.before, s, p.after);
    RenderSettles(Parse(markdown).preamble, p.before, s, p.after);
  }

  lemma ChopSafe(s: Section, after: seq<Section>)
    requires SafeSection(s)
    ensures ChopSection(Settled(s, after)) == Settled(s, after)
  {
    forall line | SafeLine(line) || LineText(line) ensures Chop(line) == line {
    }
    assert forall i :: 0 <= i < |s.body| ==> SafeLine(s.body[i]);
    hide SafeLine, Chop, LineText;
    assert ChopLines(s.body) == s.body;
  }

  lemma ChopWith(preamble: seq<string>, before: seq<Section>, s: Section, after: seq<Section>)
    requires ChopSection(s) == s
    ensures ChopDocument(With(preamble, before, s, after))
         == With(ChopLines(preamble), ChopSections(before), s, ChopSections(after))
  {
    hide ChopSection;
    ChopSectionsConcat(before + [s], after);
    ChopSectionsConcat(before, [s]);
    assert ChopSections([s]) == [s];
  }

  /** Reading the new changelog: the release is where it was put, and every other section and
      the preamble are there in the old order; a line changes only by losing the carriage
      return that a `\r\r\n` of the old text left at its end. */
  lemma OnlyOneSectionChanges(markdown: string, target: Target, version: string, date: string,
                              fragments: seq<Fragment>, p: Place)
    requires GoodArguments(version, date, fragments)
    requires PlaceFor(Parse(markdown).sections, version) == Some(p) && (fragments != [] || p.replaced == [])
    ensures var r := Apply(markdown, target, version, date, fragments);
            r.Some? && Parse(r.value) == With(ChopLines(Parse(markdown).preamble), ChopSections(p.before),
              Settled(Release(target, version, date, fragments), p.after), ChopSections(p.after))
  {
    var s := Release(target, version, date, fragments);
    ApplyWrites(markdown, target, version, date, fragments, p);
    ReleaseIsSafeSection(target, version, date, fragments);
    hide *;
    EditedMeans(markdown, target, version, date, fragments, p);
    ReadBack(Edited(markdown, target, version, date, fragments, p));
    ChopSafe(s, p.after);
    ChopWith(Parse(markdown).preamble, p.before, Settled(s, p.after), p.after);
  }

  lemma EditedMeans(markdown: string, target: Target, version: string, date: string, fragments: seq<Fragment>, p: Place)
    ensures Edited(markdown, target, version, date, fragments, p)
         == With(Parse(markdown).preamble, p.before, Settled(Release(target, version, date, fragments), p.after), p.after)
  {
  }

  /** Text without a carriage return in front of a line break, once `\r\n` is replaced. */
  predicate Clean(markdown: string) {
    !HasPair(Canonical(markdown), '\r', '\n')
  }

  lemma ChopOfClean(markdown: string, version: string, p: Place)
    requires Clean(markdown) && PlaceFor(Parse(markdown).sections, version) == Some(p)
    ensures ChopLines(Parse(markdown).preamble) == Parse(markdown).preamble
    ensures ChopSections(p.before) == p.before && ChopSections(p.after) == p.after
  {
    var d := Parse(markdown);
    ParsedLines(markdown);
    PlaceCuts(d.sections, version, p);
    JoinSplit(Canonical(markdown), '\n');
    assert d.sections != [];
    ChopClean(Flatten(d));
    ChopFlatten(d);
    ChopWellFormed(d);
    ParseAfterFlatten(d);
    ParseAfterFlatten(ChopDocument(d));
    assert ChopDocument(d) == d;
    hide *;
    ChopParts(d, p);
  }

  lemma ChopParts(d: Document, p: Place)
    requires ChopDocument(d) == d && d.sections == p.before + p.replaced + p.after
    ensures ChopLines(d.preamble) == d.preamble
    ensures ChopSections(p.before) == p.before && ChopSections(p.after) == p.after
  {
    hide ChopSection;
    var all := d.sections;
    assert ChopSections(all) == all;
    forall i | 0 <= i < |p.before| ensures ChopSection(p.before[i]) == p.before[i] {
      assert all[i] == p.before[i];
    }
    forall i | 0 <= i < |p.after| ensures ChopSection(p.after[i]) == p.after[i] {
      assert all[|p.before| + |p.replaced| + i] == p.after[i];
    }
  }

  /** On clean text the preamble and all other sections are kept exactly. */
  lemma CleanEditKeepsTheRest(markdown: string, target: Target, version: string, date: string,
                              fragments: seq<Fragment>, p: Place)
    requires GoodArguments(version, date, fragments) && Clean(markdown)
    requires PlaceFor(Parse(markdown).sections, version) == Some(p) && (fragments != [] || p.replaced == [])
    ensures var r := Apply(markdown, target, version, date, fragments);
            && r.Some? && Clean(r.value)
            && Parse(r.value) == Edited(markdown, target, version, date, fragments, p)
  {
    OnlyOneSectionChanges(markdown, target, version, date, fragments, p);
    ChopOfClean(markdown, version, p);
    ApplyWrites(markdown, target, version, date, fragments, p);
    var d := Edited(markdown, target, version, date, fragments, p);
    hide *;
    EditedMeans(markdown, target, version, date, fragments, p);
    ChopFixedIsClean(d);
  }

  /** A tight document whose lines lose nothing is rendered as clean text. */
  lemma ChopFixedIsClean(d: Document)
    requires TightDocument(d) && Parse(Render(d)) == d
    ensures Clean(Render(d))
  {
    RenderTight(d);
    ReadBack(d);
    NormalizeTight(Flatten(d));
    ChopFlatten(d);
    NormalizeShrinks(Join(Flatten(d), '\n') + "\n");
    hide Flatten, Join, ChopDocument, ChopLines, NormalizeNewlines, Parse;
    var text := Join(Flatten(d), '\n');
    assert Canonical(text + "\n") == text;
    PairInFront(text, "\n");
  }

  lemma PairInFront(text: string, more: string)
    ensures HasPair(text, '\r', '\n') ==> HasPair(text + more, '\r', '\n')
  {
    if HasPair(text, '\r', '\n') {
      var i :| 0 <= i < |text| - 1 && text[i] == '\r' && text[i + 1] == '\n';
      assert (text + more)[i] == '\r' && (text + more)[i + 1] == '\n';
    }
  }

  // ---- the same release twice

  /** Writing a release a second time only replaces the `\r\n` that are left in the text. */
  lemma Reapply(markdown: string, target: Target, version: string, date: string, fragments: seq<Fragment>)
    requires GoodArguments(version, date, fragments) && fragments != []
    requires Apply(markdown, target, version, date, fragments).Some?
    ensures var r := Apply(markdown, target, version, date, fragments).value;
            Apply(r, target, version, date, fragments) == Some(NormalizeNewlines(r))
  {
    var d := Parse(markdown);
    var p := PlaceFor(d.sections, version).value;
    var s := Release(target, version, date, fragments);
    var r := Apply(markdown, target, version, date, fragments).value;
    ReleaseIsSafeSection(target, version, date, fragments);
    ApplyWrites(markdown, target, version, date, fragments, p);
    OnlyOneSectionChanges(markdown, target, version, date, fragments, p);
    PlaceCuts(d.sections, version, p);
    var before, after := ChopSections(p.before), ChopSections(p.after);
    forall i | 0 <= i < |before| ensures !IsReleaseOf(before[i], version) {
      ChopKeepsRelease(p.before[i], version);
    }
    PlaceFound(before, Settled(s, p.after), after, version);
    RenderSettles(ChopLines(d.preamble), before, s, after);
    ReadBack(Edited(markdown, target, version, date, fragments, p));
  }

  lemma ChopKeepsRelease(s: Section, version: string)
    ensures IsReleaseOf(ChopSection(s), version) <==> IsReleaseOf(s, version)
  {
    var prefix, h := ReleasePrefix(version), s.heading;
    assert prefix[|prefix| - 1] == ']';
    if prefix <= h {
      assert h[|prefix| - 1] == ']';
    }
  }

  /** Writing the same release again changes nothing exactly when the text written first has
      no `\r\n` in it. */
  lemma IdempotentExactly(markdown: string, target: Target, version: string, date: string, fragments: seq<Fragment>)
    requires GoodArguments(version, date, fragments) && fragments != []
    requires Apply(markdown, target, version, date, fragments).Some?
    ensures var r := Apply(markdown, target, version, date, fragments);
            Apply(r.value, target, version, date, fragments) == r <==> !HasPair(r.value, '\r', '\n')
  {
    var r := Apply(markdown, target, version, date, fragments).value;
    Reapply(markdown, target, version, date, fragments);
    NormalizeShrinks(r);
    if !HasPair(r, '\r', '\n') {
      NormalizeIdentity(r);
    }
  }
}
