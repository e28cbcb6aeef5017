/** When releasing again, or restarting, is safe, told from the text before the first release. */
module Idempotence {
  import opened JsText
  import opened Markdown
  import opened Fragments
  import opened Changelog
  import opened Reparse
  import opened Editing
  import opened ReleaseRun
  import opened Releases
  import opened Restart

  /** After `\r\n` has been replaced, a line that still ends in a carriage return. */
  predicate EndsInReturn(line: string) {
    line != "" && line[|line| - 1] == '\r'
  }

  predicate NoReturns(lines: seq<string>) {
    forall i :: 0 <= i < |lines| ==> !EndsInReturn(lines[i])
  }

  predicate NoReturnsIn(sections: seq<Section>) {
    forall i :: 0 <= i < |sections| ==> !EndsInReturn(sections[i].heading) && NoReturns(sections[i].body)
  }

  /** The part of a changelog that a release of this version keeps has no such line. */
  predicate KeepsNoReturn(markdown: string, version: string) {
    var d := Parse(markdown);
    match PlaceFor(d.sections, version)
    case None => true
    case Some(p) => NoReturns(d.preamble) && NoReturnsIn(p.before) && NoReturnsIn(p.after)
  }

  lemma ChopLinesSame(lines: seq<string>)
    ensures ChopLines(lines) == lines <==> NoReturns(lines)
  {
    if ChopLines(lines) == lines {
      forall i | 0 <= i < |lines| ensures !EndsInReturn(lines[i]) {
        assert ChopLines(lines)[i] == Chop(lines[i]);
      }
    }
  }

  lemma ChopSectionsSame(sections: seq<Section>)
    ensures ChopSections(sections) == sections <==> NoReturnsIn(sections)
  {
    hide EndsInReturn, NoReturns, Chop, ChopLines;
    forall i | 0 <= i < |sections|
      ensures ChopSection(sections[i]) == sections[i] <==> !EndsInReturn(sections[i].heading) && NoReturns(sections[i].body)
    {
      ChopLinesSame(sections[i].body);
      ChopSame(sections[i].heading);
    }
    if ChopSections(sections) == sections {
      forall i | 0 <= i < |sections| ensures ChopSection(sections[i]) == sections[i] {
        assert ChopSections(sections)[i] == ChopSection(sections[i]);
      }
    }
  }

  lemma ChopSame(line: string)
    ensures Chop(line) == line <==> !EndsInReturn(line)
  {
  }

  /** Tight documents with the same text are the same. */
  lemma RenderInjective(a: Document, b: Document)
    requires TightDocument(a) && TightDocument(b) && Render(a) == Render(b)
    ensures a == b
  {
    hide *;
    TightMeans(a);
    TightMeans(b);
    RenderTight(a);
    RenderTight(b);
    var s, t := Join(Flatten(a), '\n'), Join(Flatten(b), '\n');
    assert (s + "\n")[..|s|] == s && (t + "\n")[..|t|] == t;
    SplitJoin(Flatten(a), '\n');
    SplitJoin(Flatten(b), '\n');
    ParseAfterFlatten(a);
    ParseAfterFlatten(b);
  }

  lemma TightMeans(d: Document)
    requires TightDocument(d)
    ensures WellFormed(d) && TightLines(Flatten(d)) && |Flatten(d)| >= 1
    ensures forall i :: 0 <= i < |Flatten(d)| ==> '\n' !in Flatten(d)[i]
  {
    hide Flatten, WellFormed;
  }

  lemma SamePlace(a: Section, b: Section, pre: seq<string>, pre2: seq<string>, before: seq<Section>, before2: seq<Section>,
                  after: seq<Section>, after2: seq<Section>)
    requires |before| == |before2| && |after| == |after2| && a == b
    ensures With(pre, before, a, after) == With(pre2, before2, b, after2) <==> pre == pre2 && before == before2 && after == after2
  {
    var x, y := before + [a] + after, before2 + [b] + after2;
    assert x[..|before|] == before && y[..|before|] == before2;
    assert x[|before| + 1..] == after && y[|before| + 1..] == after2;
  }

  /** Writing the same release twice is writing it once exactly when no line that the release
      keeps ends in a carriage return. */
  lemma IdempotentFromInput(markdown: string, target: Target, version: string, date: string, fragments: seq<Fragment>)
    requires GoodArguments(version, date, fragments) && fragments != []
    requires Apply(markdown, target, version, date, fragments).Some?
    ensures var r := Apply(markdown, target, version, date, fragments);
            Apply(r.value, target, version, date, fragments) == r <==> KeepsNoReturn(markdown, version)
  {
    hide *;
    ApplyPlace(markdown, target, version, date, fragments);
    var d := Parse(markdown);
    var p := PlaceFor(d.sections, version).value;
    var s := Settled(Release(target, version, date, fragments), p.after);
    var edited := Edited(markdown, target, version, date, fragments, p);
    Reapply(markdown, target, version, date, fragments);
    ApplyWrites(markdown, target, version, date, fragments, p);
    EditedMeans(markdown, target, version, date, fragments, p);
    ReadBack(edited);
    ChopTight(edited);
    if Render(ChopDocument(edited)) == Render(edited) {
      RenderInjective(ChopDocument(edited), edited);
    }
    ReleaseIsSafeSection(target, version, date, fragments);
    ChopSafe(Release(target, version, date, fragments), p.after);
    ChopWith(d.preamble, p.before, s, p.after);
    ChopLengths(p.before);
    ChopLengths(p.after);
    SamePlace(s, s, ChopLines(d.preamble), d.preamble, ChopSections(p.before), p.before, ChopSections(p.after), p.after);
    ChopLinesSame(d.preamble);
    ChopSectionsSame(p.before);
    ChopSectionsSame(p.after);
    KeepsMeans(markdown, version, p);
  }

  lemma ApplyPlace(markdown: string, target: Target, version: string, date: string, fragments: seq<Fragment>)
    ensures Apply(markdown, target, version, date, fragments).Some? <==> PlaceFor(Parse(markdown).sections, version).Some?
  {
    hide Parse, Render, PlaceFor, Release, Canonical;
  }

  lemma ChopLengths(sections: seq<Section>)
    ensures |ChopSections(sections)| == |sections|
  {
  }

  lemma KeepsMeans(markdown: string, version: string, p: Place)
    requires PlaceFor(Parse(markdown).sections, version) == Some(p)
    ensures KeepsNoReturn(markdown, version)
       <==> NoReturns(Parse(markdown).preamble) && NoReturnsIn(p.before) && NoReturnsIn(p.after)
  {
    hide Parse, PlaceFor, NoReturns, NoReturnsIn;
  }

  /** A changelog for which it fails: a line that ends in two carriage returns before `\n`. */
  lemma ReturnsNotIdempotent(markdown: string, target: Target, version: string, date: string, fragments: seq<Fragment>)
    requires markdown == Render(Document(["x\r\r"], [Section(UNRELEASED, [])]))
    requires GoodArguments(version, date, fragments) && fragments != []
    ensures var r := Apply(markdown, target, version, date, fragments);
            r.Some? && Apply(r.value, target, version, date, fragments) != r
  {
    hide *;
    TwoReturns();
    ReadBack(Document(["x\r\r"], [Section(UNRELEASED, [])]));
    ChoppedReturns();
    GoodIsPlain(version, date, fragments);
    OnlyUnreleased(version);
    ApplyPlace(markdown, target, version, date, fragments);
    KeepsMeans(markdown, version, Place([Section(UNRELEASED, [])], [], []));
    HasReturn();
    if Apply(Apply(markdown, target, version, date, fragments).value, target, version, date, fragments)
       == Apply(markdown, target, version, date, fragments) {
      IdempotentFromInput(markdown, target, version, date, fragments);
    }
  }

  lemma GoodIsPlain(version: string, date: string, fragments: seq<Fragment>)
    ensures GoodArguments(version, date, fragments) ==> Plain(version)
  {
    hide Plain;
  }

  lemma TwoReturns()
    ensures TightDocument(Document(["x\r\r"], [Section(UNRELEASED, [])]))
  {
    var d := Document(["x\r\r"], [Section(UNRELEASED, [])]);
    FlattenOne(Section(UNRELEASED, []));
    assert Flatten(d) == ["x\r\r", UNRELEASED];
    assert forall i :: 0 <= i < 3 ==> "x\r\r"[i] != '\n';
    assert forall i :: 0 <= i < |UNRELEASED| ==> UNRELEASED[i] != '\n';
    assert UNRELEASED[|UNRELEASED| - 1] == ']' && !IsSpace(']');
    assert UNRELEASED[..3] == "## " && "x\r\r"[0] == 'x';
  }

  lemma ChoppedReturns()
    ensures ChopDocument(Document(["x\r\r"], [Section(UNRELEASED, [])])) == Document(["x\r"], [Section(UNRELEASED, [])])
  {
    assert UNRELEASED[|UNRELEASED| - 1] == ']';
    assert "x\r\r"[..2] == "x\r" && Chop("x\r\r") == "x\r";
    assert ChopSection(Section(UNRELEASED, [])) == Section(UNRELEASED, []);
  }

  lemma OnlyUnreleased(version: string)
    requires Plain(version)
    ensures PlaceFor([Section(UNRELEASED, [])], version) == Some(Place([Section(UNRELEASED, [])], [], []))
  {
    var sections := [Section(UNRELEASED, [])];
    assert sections[1..] == [] && sections[..1] == sections;
    UnreleasedVersion(version);
    hide IsReleaseOf;
    assert FindRelease(sections, version) == 1 && FindUnreleased(sections) == 0;
  }

  lemma UnreleasedVersion(version: string)
    requires Plain(version)
    ensures !IsReleaseOf(Section(UNRELEASED, []), version)
  {
    assert ReleasePrefix(version)[4] == version[0] && UNRELEASED[4] == 'U';
  }

  lemma HasReturn()
    ensures !NoReturns(["x\r"])
  {
    assert EndsInReturn(["x\r"][0]);
  }

  // ---- restarts

  /** Restart safety, from the changelogs before the run: a run that stopped after `j` changelog
      writes and is repeated ends like an uninterrupted one if and only if no line kept in the
      changelogs written before the stop ends in a carriage return. */
  lemma RestartSafeExactly(repo: Repo, o: Options, j: nat)
    requires Complete(repo.changelogs) && Run(repo, o).1 == Done && !o.dryRun && j <= |o.targets|
    ensures AllParse(repo.files)
    ensures Run(StoppedAfter(repo, o, j), o) == Run(repo, o)
       <==> forall t :: t in o.targets[..j] ==> t in repo.changelogs && KeepsNoReturn(repo.changelogs[t], o.version)
  {
    hide *;
    DoneMeans(repo, o);
    StoppedTexts(repo, o, j);
    RestartExactly(repo, o, j);
    var fragments := ConsumedBy(repo, o);
    var mid := StoppedAfter(repo, o, j).changelogs;
    WritesEach(repo.changelogs, o.targets, o.version, o.date, fragments);
    forall t | t in o.targets[..j]
      ensures t in repo.changelogs && t in mid && (!HasPair(mid[t], '\r', '\n') <==> KeepsNoReturn(repo.changelogs[t], o.version))
    {
      assert t in o.targets;
      IdempotentExactly(repo.changelogs[t], t, o.version, o.date, fragments);
      IdempotentFromInput(repo.changelogs[t], t, o.version, o.date, fragments);
    }
  }
}
