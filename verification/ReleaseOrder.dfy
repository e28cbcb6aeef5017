/** Releasing repeatedly: in which order the sections stand. */
module ReleaseOrder {
  import opened JsText
  import opened Markdown
  import opened Fragments
  import opened ChangeSections
  import opened Changelog
  import opened Reparse
  import opened Editing
  import opened Ledger

  datatype ReleaseArgs = ReleaseArgs(version: string, date: string, fragments: seq<Fragment>)

  predicate GoodRelease(r: ReleaseArgs) {
    GoodArguments(r.version, r.date, r.fragments)
  }

  function ApplyAll(markdown: string, target: Target, releases: seq<ReleaseArgs>): Option<string>
    decreases |releases|
  {
    if releases == [] then Some(markdown)
    else
      match Apply(markdown, target, releases[0].version, releases[0].date, releases[0].fragments)
      case None => None
      case Some(next) => ApplyAll(next, target, releases[1..])
  }

  function Headings(sections: seq<Section>): seq<string> {
    seq(|sections|, i requires 0 <= i < |sections| => sections[i].heading)
  }

  function NewHeading(r: ReleaseArgs): string {
    ReleaseHeading(r.version, r.date)
  }

  function NewHeadings(releases: seq<ReleaseArgs>): seq<string> {
    seq(|releases|, i requires 0 <= i < |releases| => NewHeading(releases[i]))
  }

  function NewestFirst(headings: seq<string>): (r: seq<string>)
    ensures |r| == |headings|
  {
    if headings == [] then [] else NewestFirst(headings[1..]) + [headings[0]]
  }

  // ---- what a release does to the headings

  function ChopBy(line: string, n: nat): string {
    if n == 0 then line else ChopBy(Chop(line), n - 1)
  }

  function ChopAll(lines: seq<string>, n: nat): (r: seq<string>)
    ensures |r| == |lines| && forall i :: 0 <= i < |lines| ==> r[i] == ChopBy(lines[i], n)
    decreases n
  {
    if n == 0 then lines else ChopAll(ChopLines(lines), n - 1)
  }

  function FirstUnreleased(headings: seq<string>): (r: nat)
    ensures r <= |headings|
    ensures r < |headings| ==> headings[r] == UNRELEASED
    ensures forall i :: 0 <= i < r ==> headings[i] != UNRELEASED
  {
    if headings == [] || headings[0] == UNRELEASED then 0 else 1 + FirstUnreleased(headings[1..])
  }

  /** A new heading goes behind the first Unreleased one, and the others may lose a carriage return. */
  function Inserted(headings: seq<string>, heading: string): seq<string>
    requires UNRELEASED in headings
  {
    var u := FirstUnreleased(headings) + 1;
    ChopLines(headings[..u]) + [heading] + ChopLines(headings[u..])
  }

  lemma FirstFound(headings: seq<string>)
    ensures UNRELEASED in headings <==> FirstUnreleased(headings) < |headings|
  {
    hide *;
  }

  lemma UnreleasedChopped()
    ensures Chop(UNRELEASED) == UNRELEASED
  {
    assert UNRELEASED[|UNRELEASED| - 1] == ']';
  }

  lemma FirstIs(headings: seq<string>, k: nat)
    requires k < |headings| && headings[k] == UNRELEASED && forall i :: 0 <= i < k ==> headings[i] != UNRELEASED
    ensures FirstUnreleased(headings) == k
  {
    hide FirstUnreleased;
    assert UNRELEASED in headings;
  }

  lemma InsertedParts(headings: seq<string>, heading: string)
    requires UNRELEASED in headings
    ensures var u := FirstUnreleased(headings) + 1;
            var next := Inserted(headings, heading);
            && u <= |headings| && |next| == |headings| + 1
            && next[..u] == ChopLines(headings[..u]) && next[u] == heading
            && next[u..] == [heading] + ChopLines(headings[u..])
            && next[u - 1] == UNRELEASED
            && (forall i :: 0 <= i < u ==> next[i] == Chop(headings[i]))
            && (forall i :: u < i < |next| ==> next[i] == Chop(headings[i - 1]))
  {
    UnreleasedChopped();
    hide Chop, FirstUnreleased;
  }

  /** The heading becomes that of an Unreleased section by losing fewer than `n` carriage returns. */
  predicate Becomes(heading: string, n: nat) {
    exists j: nat :: j < n && ChopBy(heading, j) == UNRELEASED
  }

  lemma BecomesStep(heading: string, n: nat)
    requires n > 0
    ensures Becomes(heading, n) <==> heading == UNRELEASED || Becomes(Chop(heading), n - 1)
  {
    hide Chop;
    if heading == UNRELEASED {
      assert ChopBy(heading, 0) == UNRELEASED;
    }
    if Becomes(Chop(heading), n - 1) {
      var j: nat :| j < n - 1 && ChopBy(Chop(heading), j) == UNRELEASED;
      assert ChopBy(heading, j + 1) == UNRELEASED;
    }
    if Becomes(heading, n) {
      var j: nat :| j < n && ChopBy(heading, j) == UNRELEASED;
      assert j > 0 ==> ChopBy(Chop(heading), j - 1) == UNRELEASED;
    }
  }

  function InsertAll(headings: seq<string>, added: seq<string>): seq<string>
    requires UNRELEASED in headings
    decreases |added|
  {
    if added == [] then headings
    else
      InsertedParts(headings, added[0]);
      InsertAll(Inserted(headings, added[0]), added[1..])
  }

  lemma InsertedKeeps(headings: seq<string>, heading: string)
    requires UNRELEASED in headings
    ensures UNRELEASED in Inserted(headings, heading)
  {
    InsertedParts(headings, heading);
    hide Inserted, FirstUnreleased, Chop;
  }

  /** The headings around the first Unreleased one, the new ones in between. */
  function InOrder(headings: seq<string>, added: seq<string>): seq<string>
    requires UNRELEASED in headings
  {
    var u, n := FirstUnreleased(headings) + 1, |added|;
    ChopAll(headings[..u], n) + NewestFirst(added) + ChopAll(headings[u..], n)
  }

  predicate Uncontested(headings: seq<string>, n: nat) {
    forall i :: 0 <= i < FirstUnreleased(headings) ==> !Becomes(headings[i], n)
  }

  lemma UncontestedStep(headings: seq<string>, heading: string, n: nat)
    requires UNRELEASED in headings && n > 0
    ensures var u, next := FirstUnreleased(headings), Inserted(headings, heading);
            && UNRELEASED in next && FirstUnreleased(next) <= u
            && (Uncontested(headings, n) <==> (n == 1 || FirstUnreleased(next) == u) && Uncontested(next, n - 1))
  {
    hide Inserted, FirstUnreleased, Chop, Becomes;
    var u, next := FirstUnreleased(headings), Inserted(headings, heading);
    InsertedParts(headings, heading);
    var v := FirstUnreleased(next);
    forall i | 0 <= i < u
      ensures Becomes(headings[i], n) <==> Becomes(next[i], n - 1)
      ensures n > 1 && next[i] == UNRELEASED ==> Becomes(headings[i], n)
    {
      BecomesStep(headings[i], n);
      if n > 1 {
        BecomesStep(next[i], n - 1);
      }
    }
    assert v < |next| ==> next[v] == UNRELEASED;
    assert Uncontested(headings, n) && n == 1 ==> Uncontested(next, n - 1) by { BecomesNever(next); }
    assert (n == 1) ==> Uncontested(headings, n) by { BecomesAtOnce(headings); }
  }

  lemma BecomesNever(headings: seq<string>)
    ensures Uncontested(headings, 0)
  {
    hide FirstUnreleased;
  }

  lemma BecomesAtOnce(headings: seq<string>)
    ensures Uncontested(headings, 1)
  {
    hide FirstUnreleased, Chop;
  }

  lemma InOrderStep(headings: seq<string>, added: seq<string>)
    requires UNRELEASED in headings && added != [] && Chop(added[0]) == added[0]
    requires |added| == 1 || FirstUnreleased(Inserted(headings, added[0])) == FirstUnreleased(headings)
    ensures UNRELEASED in Inserted(headings, added[0])
    ensures |added| > 1 ==> InOrder(Inserted(headings, added[0]), added[1..]) == InOrder(headings, added)
    ensures |added| == 1 ==> Inserted(headings, added[0]) == InOrder(headings, added)
  {
    hide *;
    var u, n, next := FirstUnreleased(headings) + 1, |added|, Inserted(headings, added[0]);
    var front, back := ChopLines(headings[..u]), ChopLines(headings[u..]);
    InsertedParts(headings, added[0]);
    InsertedKeeps(headings, added[0]);
    InOrderMeans(headings, added);
    NewestStep(added);
    ChopAllStep(headings[..u], n);
    ChopAllStep(headings[u..], n);
    ChopAllCons(added[0], back, n - 1);
    Regrouped(ChopAll(front, n - 1), NewestFirst(added[1..]), added[0], ChopAll(back, n - 1));
    if n == 1 {
      NoChops(front);
      NoChops(back);
      InsertedMeans(headings, added[0]);
      assert [] + [added[0]] == [added[0]];
    } else {
      InOrderMeans(next, added[1..]);
    }
  }

  lemma Regrouped<T>(a: seq<T>, b: seq<T>, x: T, c: seq<T>)
    ensures a + b + ([x] + c) == a + (b + [x]) + c
  {
  }

  lemma InOrderMeans(headings: seq<string>, added: seq<string>)
    requires UNRELEASED in headings
    ensures var u, n := FirstUnreleased(headings) + 1, |added|;
            && u <= |headings|
            && InOrder(headings, added) == ChopAll(headings[..u], n) + NewestFirst(added) + ChopAll(headings[u..], n)
  {
    FirstFound(headings);
    hide ChopAll, FirstUnreleased, UNRELEASED;
  }

  lemma NewestStep(added: seq<string>)
    requires added != []
    ensures NewestFirst(added) == NewestFirst(added[1..]) + [added[0]]
    ensures |added| == 1 ==> NewestFirst(added[1..]) == []
  {
  }

  lemma ChopAllStep(lines: seq<string>, n: nat)
    requires n > 0
    ensures ChopAll(lines, n) == ChopAll(ChopLines(lines), n - 1)
  {
    hide ChopLines;
  }

  lemma NoChops(lines: seq<string>)
    ensures ChopAll(lines, 0) == lines
  {
  }

  lemma {:induction false} ChopAllCons(line: string, lines: seq<string>, n: nat)
    requires Chop(line) == line
    ensures ChopAll([line] + lines, n) == [line] + ChopAll(lines, n)
    decreases n
  {
    hide Chop;
    if n > 0 {
      assert ChopLines([line] + lines) == [line] + ChopLines(lines);
      ChopAllCons(line, ChopLines(lines), n - 1);
    }
  }

  predicate NoneChopped(added: seq<string>) {
    forall i :: 0 <= i < |added| ==> Chop(added[i]) == added[i]
  }

  /** When no heading in front of the first Unreleased one becomes such a heading too soon. */
  lemma {:induction false} StaysInOrder(headings: seq<string>, added: seq<string>)
    requires UNRELEASED in headings && NoneChopped(added) && added != [] && Uncontested(headings, |added|)
    ensures InsertAll(headings, added) == InOrder(headings, added)
    decreases |added|
  {
    hide Inserted, InOrder, Uncontested, Chop, FirstUnreleased;
    var next := Inserted(headings, added[0]);
    UncontestedStep(headings, added[0], |added|);
    InOrderStep(headings, added);
    if |added| > 1 {
      StaysInOrder(next, added[1..]);
    }
  }

  /** Where the last release ends up: never behind its place, and before it otherwise. */
  lemma {:induction false} LastPlace(headings: seq<string>, added: seq<string>) returns (w: nat)
    requires UNRELEASED in headings && added != []
    ensures w < |InsertAll(headings, added)| && InsertAll(headings, added)[w] == added[|added| - 1]
    ensures w <= FirstUnreleased(headings) + 1
    ensures !Uncontested(headings, |added|) ==> w <= FirstUnreleased(headings)
    decreases |added|
  {
    hide Inserted, InOrder, Uncontested, Chop, FirstUnreleased;
    var next := Inserted(headings, added[0]);
    UncontestedStep(headings, added[0], |added|);
    InsertedParts(headings, added[0]);
    if |added| == 1 {
      w := FirstUnreleased(headings) + 1;
      BecomesAtOnce(headings);
      assert added[1..] == [];
    } else {
      w := LastPlace(next, added[1..]);
    }
  }

  /** A heading of the version is not among the others, whatever they lose. */
  predicate Foreign(headings: seq<string>, prefix: string) {
    forall i :: 0 <= i < |headings| ==> !(prefix <= headings[i])
  }

  lemma {:induction false} ForeignChopped(headings: seq<string>, version: string, n: nat)
    requires Foreign(headings, ReleasePrefix(version))
    ensures Foreign(ChopAll(headings, n), ReleasePrefix(version))
    decreases n
  {
    if n > 0 {
      forall i | 0 <= i < |headings| ensures !(ReleasePrefix(version) <= ChopLines(headings)[i]) {
        ChopKeepsRelease(Section(headings[i], []), version);
      }
      hide Chop, ReleasePrefix;
      ForeignChopped(ChopLines(headings), version, n - 1);
    }
  }

  lemma OutOfOrder(headings: seq<string>, added: seq<string>, version: string)
    requires UNRELEASED in headings && added != [] && !Uncontested(headings, |added|)
    requires Foreign(headings, ReleasePrefix(version)) && ReleasePrefix(version) <= added[|added| - 1]
    ensures InsertAll(headings, added) != InOrder(headings, added)
  {
    hide Uncontested, FirstUnreleased, InsertAll, ReleasePrefix, ChopBy, ChopAll;
    var w := LastPlace(headings, added);
    ForeignChopped(headings, version, |added|);
    var u := FirstUnreleased(headings) + 1;
    assert InOrder(headings, added)[w] == ChopAll(headings[..u], |added|)[w] == ChopBy(headings[w], |added|);
    assert ChopAll(headings, |added|)[w] == ChopBy(headings[w], |added|);
  }

  // ---- releases

  /** A release heading belongs to no other version. */
  lemma ReleaseOfOneVersion(s: Section, v: string, w: string, date: string)
    requires Plain(v) && Plain(w) && s.heading == ReleaseHeading(v, date) && IsReleaseOf(s, w)
    ensures v == w
  {
    var h := s.heading;
    assert h[4 + |v|] == ']' && h[4 + |w|] == ']';
    assert forall i :: 0 <= i < |v| ==> h[4 + i] == v[i];
    assert forall i :: 0 <= i < |w| ==> h[4 + i] == w[i];
    assert ReleasePrefix(w) == h[..|ReleasePrefix(w)|];
    if |v| == |w| {
      assert v == w;
    }
  }

  predicate NotYetReleased(sections: seq<Section>, version: string) {
    forall i :: 0 <= i < |sections| ==> !IsReleaseOf(sections[i], version)
  }

  lemma ApplyFirst(markdown: string, target: Target, releases: seq<ReleaseArgs>)
    requires releases != []
    ensures var first := releases[0];
            var next := Apply(markdown, target, first.version, first.date, first.fragments);
            ApplyAll(markdown, target, releases) == if next.None? then None else ApplyAll(next.value, target, releases[1..])
  {
    hide Apply;
  }

  lemma GoodReleaseMeans(r: ReleaseArgs)
    ensures GoodRelease(r) <==> GoodArguments(r.version, r.date, r.fragments)
  {
  }

  lemma FreshPlace(sections: seq<Section>, version: string)
    requires NotYetReleased(sections, version) && FindUnreleased(sections) < |sections|
    ensures var u := FindUnreleased(sections) + 1;
            PlaceFor(sections, version) == Some(Place(sections[..u], [], sections[u..]))
  {
    hide IsReleaseOf;
  }

  lemma SettledHeading(target: Target, r: ReleaseArgs, after: seq<Section>)
    ensures Settled(Release(target, r.version, r.date, r.fragments), after).heading == ReleaseHeading(r.version, r.date)
  {
    hide ReleaseHeading, ReleaseBody;
  }

  lemma FirstUnreleasedIs(sections: seq<Section>)
    ensures FirstUnreleased(Headings(sections)) == FindUnreleased(sections)
    ensures FindUnreleased(sections) < |sections| <==> UNRELEASED in Headings(sections)
  {
    hide FirstUnreleased, FindUnreleased;
    var k := FindUnreleased(sections);
    assert forall i :: 0 <= i < |sections| ==> Headings(sections)[i] == sections[i].heading;
    if k < |sections| {
      FirstIs(Headings(sections), k);
    }
  }

  lemma NoneReleased(sections: seq<Section>, version: string)
    ensures NotYetReleased(sections, version) <==> Foreign(Headings(sections), ReleasePrefix(version))
  {
    hide ReleasePrefix;
    assert forall i :: 0 <= i < |sections| ==> Headings(sections)[i] == sections[i].heading;
  }

  lemma HeadingsWith(before: seq<Section>, s: Section, after: seq<Section>)
    ensures Headings(before + [s] + after) == Headings(before) + [s.heading] + Headings(after)
    ensures Headings(ChopSections(before)) == ChopLines(Headings(before))
  {
    hide Chop;
  }

  /** One release of a new version, told from the headings. */
  lemma ReleaseInserts(markdown: string, target: Target, r: ReleaseArgs)
    requires UNRELEASED in Headings(Parse(markdown).sections)
    requires GoodRelease(r) && NotYetReleased(Parse(markdown).sections, r.version)
    ensures var next := Apply(markdown, target, r.version, r.date, r.fragments);
            && next.Some? && Parse(next.value).preamble == ChopLines(Parse(markdown).preamble)
            && Headings(Parse(next.value).sections) == Inserted(Headings(Parse(markdown).sections), NewHeading(r))
  {
    hide *;
    var d := Parse(markdown);
    var u := FindUnreleased(d.sections) + 1;
    FirstUnreleasedIs(d.sections);
    FreshPlace(d.sections, r.version);
    var p := Place(d.sections[..u], [], d.sections[u..]);
    GoodReleaseMeans(r);
    OnlyOneSectionChanges(markdown, target, r.version, r.date, r.fragments, p);
    var s := Settled(Release(target, r.version, r.date, r.fragments), p.after);
    SettledHeading(target, r, p.after);
    WithParts(ChopLines(d.preamble), ChopSections(p.before), s, ChopSections(p.after));
    HeadingsWith(ChopSections(p.before), s, ChopSections(p.after));
    HeadingsWith(p.before, s, p.after);
    HeadingsWith(p.after, s, []);
    HeadingsCut(d.sections, u);
    InsertedMeans(Headings(d.sections), NewHeading(r));
    NewHeadingMeans(r);
  }

  lemma NewHeadingMeans(r: ReleaseArgs)
    ensures NewHeading(r) == ReleaseHeading(r.version, r.date)
  {
  }

  lemma InsertedMeans(headings: seq<string>, heading: string)
    requires UNRELEASED in headings
    ensures var u := FirstUnreleased(headings) + 1;
            u <= |headings| && Inserted(headings, heading) == ChopLines(headings[..u]) + [heading] + ChopLines(headings[u..])
  {
    hide *;
    FirstFound(headings);
    InsertedParts(headings, heading);
    var u, next := FirstUnreleased(headings) + 1, Inserted(headings, heading);
    assert next == next[..u] + next[u..];
    ConcatAssoc(ChopLines(headings[..u]), [heading], ChopLines(headings[u..]));
  }

  lemma WithParts(preamble: seq<string>, before: seq<Section>, s: Section, after: seq<Section>)
    ensures With(preamble, before, s, after) == Document(preamble, before + [s] + after)
  {
  }

  lemma HeadingsCut(sections: seq<Section>, u: nat)
    requires u <= |sections|
    ensures |Headings(sections)| == |sections|
    ensures Headings(sections[..u]) == Headings(sections)[..u] && Headings(sections[u..]) == Headings(sections)[u..]
  {
  }

  /** A heading of one version belongs to no other. */
  lemma OtherVersion(first: ReleaseArgs, later: ReleaseArgs)
    requires GoodRelease(first) && GoodRelease(later) && first.version != later.version
    ensures !(ReleasePrefix(later.version) <= NewHeading(first)) && Chop(NewHeading(first)) == NewHeading(first)
    ensures ReleasePrefix(first.version) <= NewHeading(first)
  {
    var s := Section(NewHeading(first), []);
    if IsReleaseOf(s, later.version) {
      ReleaseOfOneVersion(s, first.version, later.version, first.date);
    }
    HeadingEnds(first);
  }

  lemma HeadingEnds(r: ReleaseArgs)
    requires GoodRelease(r)
    ensures Chop(NewHeading(r)) == NewHeading(r) && ReleasePrefix(r.version) <= NewHeading(r)
  {
    assert NewHeading(r)[|NewHeading(r)| - 1] == r.date[|r.date| - 1] != '\r';
  }

  lemma StillForeign(headings: seq<string>, first: ReleaseArgs, later: ReleaseArgs)
    requires UNRELEASED in headings && GoodRelease(first) && GoodRelease(later) && first.version != later.version
    requires Foreign(headings, ReleasePrefix(later.version))
    ensures Foreign(Inserted(headings, NewHeading(first)), ReleasePrefix(later.version))
  {
    hide *;
    ForeignInserted(headings, NewHeading(first), later.version);
    OtherVersion(first, later);
  }

  lemma ForeignInserted(headings: seq<string>, heading: string, version: string)
    requires UNRELEASED in headings && Foreign(headings, ReleasePrefix(version))
    ensures !(ReleasePrefix(version) <= heading) ==> Foreign(Inserted(headings, heading), ReleasePrefix(version))
  {
    ForeignChopped(headings, version, 1);
    InsertedParts(headings, heading);
    hide ReleasePrefix, Chop, Inserted, FirstUnreleased;
    var next, u := Inserted(headings, heading), FirstUnreleased(headings) + 1;
    assert forall i :: 0 <= i < |headings| ==> ChopAll(headings, 1)[i] == Chop(headings[i]);
  }

  /** The versions are new and differ. */
  predicate NewVersions(sections: seq<Section>, releases: seq<ReleaseArgs>) {
    && (forall i :: 0 <= i < |releases| ==> GoodRelease(releases[i]) && NotYetReleased(sections, releases[i].version))
    && forall i, j :: 0 <= i < j < |releases| ==> releases[i].version != releases[j].version
  }

  lemma NewVersionsStep(sections: seq<Section>, next: seq<Section>, releases: seq<ReleaseArgs>)
    requires releases != [] && NewVersions(sections, releases) && UNRELEASED in Headings(sections)
    requires Headings(next) == Inserted(Headings(sections), NewHeading(releases[0]))
    ensures NewVersions(next, releases[1..])
  {
    hide GoodRelease, NotYetReleased, Inserted, NewHeading, Headings;
    forall i | 1 <= i < |releases| ensures GoodRelease(releases[i]) && NotYetReleased(next, releases[i].version) {
      NoneReleased(sections, releases[i].version);
      StillForeign(Headings(sections), releases[0], releases[i]);
      NoneReleased(next, releases[i].version);
    }
  }

  /** Any sequence of releases of new versions, told from the headings. */
  lemma {:induction false} ReleasesInsert(markdown: string, target: Target, releases: seq<ReleaseArgs>)
    requires UNRELEASED in Headings(Parse(markdown).sections) && NewVersions(Parse(markdown).sections, releases)
    ensures var r := ApplyAll(markdown, target, releases);
            && r.Some? && Parse(r.value).preamble == ChopAll(Parse(markdown).preamble, |releases|)
            && Headings(Parse(r.value).sections) == InsertAll(Headings(Parse(markdown).sections), NewHeadings(releases))
    decreases |releases|
  {
    hide Parse, Apply, ApplyAll, Headings, Inserted, NewHeading, GoodRelease, NotYetReleased, Chop, ChopLines;
    var sections := Parse(markdown).sections;
    if releases == [] {
      ApplyNone(markdown, target);
    } else {
      var first := releases[0];
      ReleaseInserts(markdown, target, first);
      var next := Apply(markdown, target, first.version, first.date, first.fragments).value;
      InsertedKeeps(Headings(sections), NewHeading(first));
      NewVersionsStep(sections, Parse(next).sections, releases);
      ReleasesInsert(next, target, releases[1..]);
      ApplyFirst(markdown, target, releases);
      assert NewHeadings(releases)[0] == NewHeading(first) && NewHeadings(releases)[1..] == NewHeadings(releases[1..]);
    }
  }

  lemma ApplyNone(markdown: string, target: Target)
    ensures ApplyAll(markdown, target, []) == Some(markdown)
  {
  }

  /** Any sequence of releases of new versions leaves them newest first, right behind the first
      Unreleased section and with all other sections around them in their old order, exactly
      when no heading in front of that section becomes its heading before the last release, by
      losing the carriage returns that `\r\n` takes from it at every reading. */
  lemma NewestFirstExactly(markdown: string, target: Target, releases: seq<ReleaseArgs>)
    requires releases != [] && NewVersions(Parse(markdown).sections, releases)
    requires UNRELEASED in Headings(Parse(markdown).sections)
    ensures var r, headings := ApplyAll(markdown, target, releases), Headings(Parse(markdown).sections);
            && r.Some? && Parse(r.value).preamble == ChopAll(Parse(markdown).preamble, |releases|)
            && (Headings(Parse(r.value).sections) == InOrder(headings, NewHeadings(releases))
                <==> Uncontested(headings, |releases|))
  {
    hide *;
    var headings, added, last := Headings(Parse(markdown).sections), NewHeadings(releases), releases[|releases| - 1];
    ReleasesInsert(markdown, target, releases);
    NewHeadingsMean(releases);
    NewVersionsMean(Parse(markdown).sections, releases);
    if Uncontested(headings, |releases|) {
      StaysInOrder(headings, added);
    } else {
      OutOfOrder(headings, added, last.version);
    }
  }

  lemma NewHeadingsMean(releases: seq<ReleaseArgs>)
    ensures |NewHeadings(releases)| == |releases|
    ensures forall i :: 0 <= i < |releases| ==> NewHeadings(releases)[i] == NewHeading(releases[i])
  {
  }

  lemma NewVersionsMean(sections: seq<Section>, releases: seq<ReleaseArgs>)
    requires releases != [] && NewVersions(sections, releases)
    ensures NoneChopped(NewHeadings(releases))
    ensures var last := releases[|releases| - 1];
            Foreign(Headings(sections), ReleasePrefix(last.version)) && ReleasePrefix(last.version) <= NewHeading(last)
  {
    hide Chop, ReleasePrefix, NewHeading, GoodRelease, Headings, NotYetReleased;
    forall i | 0 <= i < |releases|
      ensures Chop(NewHeadings(releases)[i]) == NewHeadings(releases)[i]
      ensures ReleasePrefix(releases[i].version) <= NewHeading(releases[i])
    {
      HeadingEnds(releases[i]);
    }
    NoneReleased(sections, releases[|releases| - 1].version);
  }
}
