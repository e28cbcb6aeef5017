/** What releases keep over time, interrupted and repeated ones among them. */
module History {
  import opened JsText
  import opened Markdown
  import opened Fragments
  import opened ChangeSections
  import opened Changelog
  import opened Reparse
  import opened Editing
  import opened Ledger
  import opened ReleaseRun
  import opened Releases
  import opened Restart
  import opened Stopped

  /** What happens to the working tree over time: somebody adds a fragment file at some place
      of the directory, a release is run, or a release stops after some changelog writes and is
      repeated. */
  datatype Event =
    | AddFile(at: nat, file: File)
    | RunRelease(options: Options)
    | StopAndRepeat(options: Options, writes: nat)

  /** Where a run leaves the working tree when it stops after that many writes. */
  function Interrupted(repo: Repo, o: Options, writes: nat): (r: Repo)
    requires Complete(repo.changelogs)
    ensures Complete(r.changelogs)
  {
    if Starts(repo, o) && !o.dryRun then StoppedAfter(repo, o, if writes <= |o.targets| then writes else |o.targets|)
    else repo
  }

  function Step(repo: Repo, e: Event): (r: Repo)
    requires Complete(repo.changelogs)
    ensures Complete(r.changelogs)
  {
    match e
    case AddFile(at, file) =>
      var k := if at <= |repo.files| then at else |repo.files|;
      repo.(files := repo.files[..k] + [file] + repo.files[k..])
    case RunRelease(o) => Run(repo, o).0
    case StopAndRepeat(o, writes) => Run(Interrupted(repo, o, writes), o).0
  }

  lemma StepMeans(repo: Repo, e: Event)
    requires Complete(repo.changelogs)
    ensures e.AddFile? ==> Step(repo, e).changelogs == repo.changelogs
    ensures e.RunRelease? ==> Step(repo, e) == Run(repo, e.options).0
    ensures e.StopAndRepeat? && !(Starts(repo, e.options) && !e.options.dryRun) ==> Step(repo, e) == Run(repo, e.options).0
    ensures e.StopAndRepeat? && Starts(repo, e.options) && !e.options.dryRun ==>
              && AllParse(repo.files)
              && (var o := e.options;
                  Step(repo, e) == Run(StoppedAfter(repo, o, if e.writes <= |o.targets| then e.writes else |o.targets|), o).0)
  {
    hide Run, StoppedAfter, ConsumedBy, ValidOptions, Parses;
  }

  function After(repo: Repo, events: seq<Event>): (r: Repo)
    requires Complete(repo.changelogs)
    ensures Complete(r.changelogs)
    decreases |events|
  {
    if events == [] then repo else After(Step(repo, events[0]), events[1..])
  }

  /** The version is new to the changelog, and there is an Unreleased section to put it under. */
  predicate Fresh(markdown: string, version: string) {
    var p := PlaceFor(Parse(markdown).sections, version);
    p.Some? && p.value.replaced == []
  }

  predicate FreshRun(repo: Repo, o: Options)
    requires Complete(repo.changelogs)
  {
    forall t :: t in o.targets ==> t in repo.changelogs && Fresh(repo.changelogs[t], o.version)
  }

  /** Every release of the history is fresh for its targets when it is run. */
  predicate FreshHistory(repo: Repo, events: seq<Event>)
    requires Complete(repo.changelogs)
    decreases |events|
  {
    events == [] ||
    ((!events[0].AddFile? ==> FreshRun(repo, events[0].options)) && FreshHistory(Step(repo, events[0]), events[1..]))
  }

  /** How often the files added during the history will print the bullet. */
  function Added(events: seq<Event>, target: Target, bullet: string): nat {
    if events == [] then 0
    else (if events[0].AddFile? then FilePending(events[0].file, target, bullet) else 0) + Added(events[1..], target, bullet)
  }

  predicate AddsValidFiles(events: seq<Event>) {
    forall i :: 0 <= i < |events| && events[i].AddFile? ==> Parses(events[i].file)
  }

  /** A fresh run either finishes or changes nothing. */
  lemma FreshRunStatus(repo: Repo, o: Options)
    requires Complete(repo.changelogs) && FreshRun(repo, o)
    ensures Run(repo, o).1 == Done || Run(repo, o).0 == repo
  {
    if ValidOptions(o) && AllParse(repo.files) {
      var consumed := Touching(FragmentsIn(repo.files), SetOf(o.targets));
      hide Parse, PlaceFor, Apply, FragmentIn, Parses, Touching, WriteChangelogs;
      forall t | t in o.targets ensures Apply(repo.changelogs[t], t, o.version, o.date, consumed).Some? {
        PlaceExists(repo.changelogs[t], t, o.version, o.date, consumed);
      }
      WritesAll(repo.changelogs, o.targets, o.version, o.date, consumed);
    }
  }

  lemma FreshRunConserves(repo: Repo, o: Options, target: Target, bullet: string)
    requires Complete(repo.changelogs) && FreshRun(repo, o) && IsBullet(bullet)
    ensures Total(Run(repo, o).0, target, bullet) == Total(repo, target, bullet)
    ensures AllParse(repo.files) ==> AllParse(Run(repo, o).0.files)
  {
    FreshRunStatus(repo, o);
    if Run(repo, o).1 == Done && !o.dryRun {
      RunConservesExactly(repo, o, target, bullet);
      RunLedger(repo, o, target, bullet);
      assert target in o.targets ==> ReplacedPrints(repo.changelogs[target], o.version, bullet) == 0;
    }
  }

  lemma AddConserves(repo: Repo, at: nat, file: File, target: Target, bullet: string)
    requires Complete(repo.changelogs)
    ensures var after := Step(repo, AddFile(at, file));
            && Total(after, target, bullet) == Total(repo, target, bullet) + FilePending(file, target, bullet)
            && (AllParse(repo.files) && Parses(file) ==> AllParse(after.files))
  {
    hide FilePending, Parses, PrintedIn, Pending;
    var k := if at <= |repo.files| then at else |repo.files|;
    var front, back := repo.files[..k], repo.files[k..];
    assert repo.files == front + back;
    PendingConcat(front, back, target, bullet);
    PendingConcat(front + [file], back, target, bullet);
    PendingConcat(front, [file], target, bullet);
    PendingOne(file, target, bullet);
    var all := front + [file] + back;
    if AllParse(repo.files) && Parses(file) {
      forall i | 0 <= i < |all| ensures Parses(all[i]) {
        assert i < k ==> all[i] == repo.files[i];
        assert i > k ==> all[i] == repo.files[i - 1];
      }
    }
  }

  /** A fresh run that gets as far as writing can write all its changelogs. */
  lemma FreshPlaced(repo: Repo, o: Options, j: nat)
    requires Complete(repo.changelogs) && FreshRun(repo, o) && Starts(repo, o) && !o.dryRun && j <= |o.targets|
    ensures Placed(repo.changelogs, o.targets[..j], o.version) && Run(repo, o).1 == Done
  {
    hide *;
    RunEnds(repo, o);
    FreshHasPlaces(repo, o);
    PlaceableAll(repo.changelogs, o.targets, o.version);
    PrefixPlaced(repo.changelogs, o.targets, o.version, j);
  }

  lemma FreshHasPlaces(repo: Repo, o: Options)
    requires Complete(repo.changelogs) && FreshRun(repo, o)
    ensures Placed(repo.changelogs, o.targets, o.version)
  {
    hide Parse, PlaceFor;
  }

  lemma RepeatConserves(repo: Repo, o: Options, writes: nat, target: Target, bullet: string)
    requires Complete(repo.changelogs) && FreshRun(repo, o) && IsBullet(bullet)
    ensures var after := Step(repo, StopAndRepeat(o, writes));
            && Total(after, target, bullet) == Total(repo, target, bullet)
            && (AllParse(repo.files) ==> AllParse(after.files))
  {
    hide *;
    StepMeans(repo, StopAndRepeat(o, writes));
    FreshRunConserves(repo, o, target, bullet);
    if Starts(repo, o) && !o.dryRun {
      var j := if writes <= |o.targets| then writes else |o.targets|;
      FreshPlaced(repo, o, j);
      RestartConserves(repo, o, j, target, bullet);
    }
  }

  /** Conservation: over every history whose releases are fresh, the bullets of a target are at
      every moment either printed or pending, as many times as the files ever in the directory
      name them; and every file left in the directory still parses. */
  lemma {:induction false} HistoryConserves(repo: Repo, events: seq<Event>, target: Target, bullet: string)
    requires Complete(repo.changelogs) && FreshHistory(repo, events) && IsBullet(bullet)
    ensures Total(After(repo, events), target, bullet) == Total(repo, target, bullet) + Added(events, target, bullet)
    ensures AllParse(repo.files) && AddsValidFiles(events) ==> AllParse(After(repo, events).files)
    decreases |events|
  {
    hide Run, Total, FilePending, Parses, FreshRun, Interrupted;
    if events != [] {
      var e := events[0];
      HistoryConserves(Step(repo, e), events[1..], target, bullet);
      match e {
        case AddFile(at, file) => AddConserves(repo, at, file, target, bullet);
        case RunRelease(o) => FreshRunConserves(repo, o, target, bullet);
        case StopAndRepeat(o, writes) => RepeatConserves(repo, o, writes, target, bullet);
      }
      assert AddsValidFiles(events) ==> AddsValidFiles(events[1..]);
    }
  }

  // ---- where a bullet stands

  predicate ReleasedIn(s: Section, versions: set<string>) {
    exists v :: v in versions && IsReleaseOf(s, v)
  }

  /** How often the bullet is printed by sections that are no release of these versions. */
  function Elsewhere(sections: seq<Section>, versions: set<string>, bullet: string): nat {
    if sections == [] then 0
    else
      (if ReleasedIn(sections[0], versions) then 0 else Printed(SectionLines(sections[0]), bullet))
      + Elsewhere(sections[1..], versions, bullet)
  }

  function Outside(d: Document, versions: set<string>, bullet: string): nat {
    Printed(d.preamble, bullet) + Elsewhere(d.sections, versions, bullet)
  }

  /** How often a changelog prints the bullet outside the releases of these versions. */
  function OutsideIn(markdown: string, versions: set<string>, bullet: string): nat {
    Outside(Parse(markdown), versions, bullet)
  }

  lemma {:induction false} ElsewhereConcat(a: seq<Section>, b: seq<Section>, versions: set<string>, bullet: string)
    ensures Elsewhere(a + b, versions, bullet) == Elsewhere(a, versions, bullet) + Elsewhere(b, versions, bullet)
  {
    hide ReleasedIn, Printed, SectionLines;
    if a == [] {
      assert a + b == b;
    } else {
      ElsewhereConcat(a[1..], b, versions, bullet);
      assert (a + b)[1..] == a[1..] + b;
    }
  }

  lemma {:induction false} ElsewhereMore(sections: seq<Section>, versions: set<string>, more: set<string>, bullet: string)
    requires versions <= more
    ensures Elsewhere(sections, more, bullet) <= Elsewhere(sections, versions, bullet)
  {
    hide IsReleaseOf, Printed, SectionLines;
    if sections != [] {
      ElsewhereMore(sections[1..], versions, more, bullet);
    }
  }

  lemma ChoppedSection(s: Section, versions: set<string>, bullet: string)
    ensures ReleasedIn(ChopSection(s), versions) <==> ReleasedIn(s, versions)
    ensures Printed(SectionLines(ChopSection(s)), bullet) == Printed(SectionLines(s), bullet)
  {
    hide IsReleaseOf, Printed, Chop;
    forall v ensures IsReleaseOf(ChopSection(s), v) <==> IsReleaseOf(s, v) {
      ChopKeepsRelease(s, v);
    }
    PrintedChopped(SectionLines(s), bullet);
    assert ChopLines([s.heading] + s.body) == [Chop(s.heading)] + ChopLines(s.body);
  }

  lemma {:induction false} ElsewhereChopped(sections: seq<Section>, versions: set<string>, bullet: string)
    ensures Elsewhere(ChopSections(sections), versions, bullet) == Elsewhere(sections, versions, bullet)
  {
    hide ReleasedIn, Printed, SectionLines, ChopSection;
    if sections != [] {
      ElsewhereChopped(sections[1..], versions, bullet);
      ChoppedSection(sections[0], versions, bullet);
      assert ChopSections(sections)[1..] == ChopSections(sections[1..]);
    }
  }

  lemma ElsewhereOne(s: Section, versions: set<string>, bullet: string)
    requires ReleasedIn(s, versions)
    ensures Elsewhere([s], versions, bullet) == 0
  {
    hide ReleasedIn, Printed, SectionLines;
    assert [s][1..] == [];
  }

  lemma ReleaseFound(target: Target, version: string, date: string, fragments: seq<Fragment>, after: seq<Section>,
                     versions: set<string>)
    requires GoodArguments(version, date, fragments) && version in versions
    ensures ReleasedIn(Settled(Release(target, version, date, fragments), after), versions)
  {
    ReleaseIsSafeSection(target, version, date, fragments);
    hide Release;
  }

  /** Writing a release prints nothing outside it. */
  lemma ApplyOutside(markdown: string, target: Target, version: string, date: string, fragments: seq<Fragment>,
                     versions: set<string>, bullet: string)
    requires GoodArguments(version, date, fragments) && fragments != []
    requires Apply(markdown, target, version, date, fragments).Some?
    ensures OutsideIn(Apply(markdown, target, version, date, fragments).value, versions + {version}, bullet)
         <= OutsideIn(markdown, versions, bullet)
  {
    hide *;
    var all := versions + {version};
    var d, r := Parse(markdown), Apply(markdown, target, version, date, fragments).value;
    PlaceExists(markdown, target, version, date, fragments);
    var p := PlaceFor(d.sections, version).value;
    var s := Settled(Release(target, version, date, fragments), p.after);
    OnlyOneSectionChanges(markdown, target, version, date, fragments, p);
    PlaceCuts(d.sections, version, p);
    ReleaseFound(target, version, date, fragments, p.after, all);
    ElsewhereOne(s, all, bullet);
    WithMeans(ChopLines(d.preamble), ChopSections(p.before), s, ChopSections(p.after));
    ElsewhereConcat(ChopSections(p.before) + [s], ChopSections(p.after), all, bullet);
    ElsewhereConcat(ChopSections(p.before), [s], all, bullet);
    ElsewhereChopped(p.before, all, bullet);
    ElsewhereChopped(p.after, all, bullet);
    PrintedChopped(d.preamble, bullet);
    ElsewhereConcat(p.before + p.replaced, p.after, all, bullet);
    ElsewhereConcat(p.before, p.replaced, all, bullet);
    ElsewhereMore(d.sections, versions, all, bullet);
    OutsideMeans(markdown, versions, bullet);
    OutsideMeans(r, all, bullet);
  }

  lemma WithMeans(preamble: seq<string>, before: seq<Section>, s: Section, after: seq<Section>)
    ensures With(preamble, before, s, after) == Document(preamble, before + [s] + after)
  {
  }

  lemma OutsideMeans(markdown: string, versions: set<string>, bullet: string)
    ensures OutsideIn(markdown, versions, bullet)
         == Printed(Parse(markdown).preamble, bullet) + Elsewhere(Parse(markdown).sections, versions, bullet)
  {
    hide Parse, Printed, Elsewhere;
  }

  lemma OutsideMore(markdown: string, versions: set<string>, more: set<string>, bullet: string)
    requires versions <= more
    ensures OutsideIn(markdown, more, bullet) <= OutsideIn(markdown, versions, bullet)
  {
    hide Parse, Printed, Elsewhere;
    ElsewhereMore(Parse(markdown).sections, versions, more, bullet);
  }

  lemma StoppedOutside(repo: Repo, o: Options, j: nat, versions: set<string>, target: Target, bullet: string)
    requires Complete(repo.changelogs) && Starts(repo, o) && j <= |o.targets| && Placed(repo.changelogs, o.targets[..j], o.version)
    ensures AllParse(repo.files) && target in repo.changelogs && target in StoppedAfter(repo, o, j).changelogs
    ensures OutsideIn(StoppedAfter(repo, o, j).changelogs[target], versions + {o.version}, bullet)
         <= OutsideIn(repo.changelogs[target], versions, bullet)
  {
    hide *;
    StartsMeans(repo, o);
    AllTargetsComplete(repo.changelogs, target);
    AllTargetsComplete(StoppedAfter(repo, o, j).changelogs, target);
    StoppedWrites(repo, o, j);
    if target in o.targets[..j] {
      ApplyOutside(repo.changelogs[target], target, o.version, o.date, ConsumedBy(repo, o), versions, bullet);
    } else {
      OutsideMore(repo.changelogs[target], versions, versions + {o.version}, bullet);
    }
  }

  /** However it ends, a run prints nothing outside its own releases. */
  lemma RunOutside(repo: Repo, o: Options, versions: set<string>, target: Target, bullet: string)
    requires Complete(repo.changelogs)
    ensures target in repo.changelogs && target in Run(repo, o).0.changelogs
    ensures OutsideIn(Run(repo, o).0.changelogs[target], versions + {o.version}, bullet)
         <= OutsideIn(repo.changelogs[target], versions, bullet)
  {
    hide *;
    AllTargetsComplete(repo.changelogs, target);
    AllTargetsComplete(Run(repo, o).0.changelogs, target);
    RunEnds(repo, o);
    OutsideMore(repo.changelogs[target], versions, versions + {o.version}, bullet);
    if Starts(repo, o) && !o.dryRun {
      var k := Placeable(repo.changelogs, o.targets, o.version);
      PlaceableMeans(repo.changelogs, o.targets, o.version);
      StoppedOutside(repo, o, k, versions, target, bullet);
      if k == |o.targets| {
        DoneIsStopped(repo, o);
      }
    }
  }

  lemma DoneIsStopped(repo: Repo, o: Options)
    requires Complete(repo.changelogs) && Run(repo, o).1 == Done && !o.dryRun
    ensures AllParse(repo.files) && StoppedAfter(repo, o, |o.targets|).changelogs == Run(repo, o).0.changelogs
  {
    hide *;
    DoneMeans(repo, o);
    StoppedMeans(repo, o, |o.targets|);
    assert o.targets[..|o.targets|] == o.targets;
  }

  lemma StoppedMeans(repo: Repo, o: Options, j: nat)
    requires Complete(repo.changelogs) && AllParse(repo.files) && j <= |o.targets|
    ensures StoppedAfter(repo, o, j).changelogs
         == WriteChangelogs(repo.changelogs, o.targets[..j], o.version, o.date, ConsumedBy(repo, o)).0
  {
    hide WriteChangelogs, ConsumedBy, Parses;
  }

  /** The versions that were released. */
  function Released(events: seq<Event>): set<string> {
    if events == [] then {}
    else (if events[0].AddFile? then {} else {events[0].options.version}) + Released(events[1..])
  }

  lemma StepOutside(repo: Repo, e: Event, versions: set<string>, target: Target, bullet: string)
    requires Complete(repo.changelogs) && (!e.AddFile? ==> FreshRun(repo, e.options))
    ensures target in repo.changelogs && target in Step(repo, e).changelogs
    ensures OutsideIn(Step(repo, e).changelogs[target], versions + Released([e]), bullet)
         <= OutsideIn(repo.changelogs[target], versions, bullet)
  {
    hide *;
    StepMeans(repo, e);
    AllTargetsComplete(repo.changelogs, target);
    ReleasedOne(e);
    if e.AddFile? {
      assert versions + {} == versions;
    } else {
      var o := e.options;
      RunOutside(repo, o, versions, target, bullet);
      if e.StopAndRepeat? && Starts(repo, o) && !o.dryRun {
        var j := if e.writes <= |o.targets| then e.writes else |o.targets|;
        var all := versions + {o.version};
        FreshPlaced(repo, o, j);
        StoppedOutside(repo, o, j, versions, target, bullet);
        RunOutside(StoppedAfter(repo, o, j), o, all, target, bullet);
        assert all + {o.version} == all;
      }
    }
  }

  lemma ReleasedOne(e: Event)
    ensures Released([e]) == if e.AddFile? then {} else {e.options.version}
  {
    assert [e][1..] == [];
  }

  lemma {:induction false} HistoryOutside(repo: Repo, events: seq<Event>, versions: set<string>, target: Target, bullet: string)
    requires Complete(repo.changelogs) && FreshHistory(repo, events)
    ensures target in repo.changelogs && target in After(repo, events).changelogs
    ensures OutsideIn(After(repo, events).changelogs[target], versions + Released(events), bullet)
         <= OutsideIn(repo.changelogs[target], versions, bullet)
    decreases |events|
  {
    hide Step, FreshRun, OutsideIn;
    AllTargets(target);
    if events == [] {
      assert versions + {} == versions;
    } else {
      StepOutside(repo, events[0], versions, target, bullet);
      HistoryOutside(Step(repo, events[0]), events[1..], versions + Released([events[0]]), target, bullet);
      ReleasedOne(events[0]);
      assert versions + Released(events) == (versions + Released([events[0]])) + Released(events[1..]);
    }
  }

  /** The bullet stands in section `k`, once, and nowhere else. */
  predicate StandsIn(d: Document, k: nat, bullet: string) {
    && k < |d.sections| && Printed(SectionLines(d.sections[k]), bullet) == 1
    && Printed(d.preamble, bullet) == 0
    && forall i :: 0 <= i < |d.sections| && i != k ==> Printed(SectionLines(d.sections[i]), bullet) == 0
  }

  lemma {:induction false} SectionsPrint(sections: seq<Section>, bullet: string)
    ensures Printed(FlattenSections(sections), bullet) == Elsewhere(sections, {}, bullet)
  {
    hide Printed, SectionLines, IsReleaseOf, FlattenSections;
    if sections == [] {
      FlattenNone();
      PrintedNone(bullet);
    } else {
      SectionsPrint(sections[1..], bullet);
      assert sections == [sections[0]] + sections[1..];
      FlattenSectionsConcat([sections[0]], sections[1..]);
      FlattenOne(sections[0]);
      PrintedConcat(SectionLines(sections[0]), FlattenSections(sections[1..]), bullet);
    }
  }

  lemma {:induction false} OnePrints(sections: seq<Section>, bullet: string) returns (k: nat)
    requires Elsewhere(sections, {}, bullet) == 1
    ensures k < |sections| && Printed(SectionLines(sections[k]), bullet) == 1
    ensures forall i :: 0 <= i < |sections| && i != k ==> Printed(SectionLines(sections[i]), bullet) == 0
  {
    hide Printed, SectionLines, IsReleaseOf;
    if Printed(SectionLines(sections[0]), bullet) == 1 {
      k := 0;
      NonePrints(sections[1..], bullet);
      assert forall i :: 0 < i < |sections| ==> sections[i] == sections[1..][i - 1];
    } else {
      k := OnePrints(sections[1..], bullet);
      k := k + 1;
      assert forall i :: 0 < i < |sections| ==> sections[i] == sections[1..][i - 1];
    }
  }

  lemma {:induction false} NonePrints(sections: seq<Section>, bullet: string)
    requires Elsewhere(sections, {}, bullet) == 0
    ensures forall i :: 0 <= i < |sections| ==> Printed(SectionLines(sections[i]), bullet) == 0
  {
    hide Printed, SectionLines, IsReleaseOf;
    if sections != [] {
      NonePrints(sections[1..], bullet);
    }
  }

  lemma {:induction false} ElsewhereAt(sections: seq<Section>, k: nat, versions: set<string>, bullet: string)
    requires k < |sections| && Elsewhere(sections, versions, bullet) == 0 && Printed(SectionLines(sections[k]), bullet) > 0
    ensures ReleasedIn(sections[k], versions)
  {
    hide Printed, SectionLines, ReleasedIn;
    if k > 0 {
      ElsewhereAt(sections[1..], k - 1, versions, bullet);
    }
  }

  /** A bullet that was nowhere and is added once is, at every later moment, either pending and not
      printed, or not pending and printed by exactly one section, once, a release of a version that
      was run. */
  lemma BulletStands(repo: Repo, events: seq<Event>, target: Target, bullet: string)
    requires Complete(repo.changelogs) && FreshHistory(repo, events) && IsBullet(bullet)
    requires Total(repo, target, bullet) == 0 && Added(events, target, bullet) == 1
    ensures target in After(repo, events).changelogs
    ensures var after := After(repo, events);
            var d := Parse(after.changelogs[target]);
            if Pending(after.files, target, bullet) == 0 then
              exists k: nat :: StandsIn(d, k, bullet) && ReleasedIn(d.sections[k], Released(events))
            else
              Pending(after.files, target, bullet) == 1 && PrintedIn(after.changelogs[target], bullet) == 0
  {
    hide *;
    var after := After(repo, events);
    HistoryConserves(repo, events, target, bullet);
    TotalMeans(repo, target, bullet);
    TotalMeans(after, target, bullet);
    if Pending(after.files, target, bullet) == 0 {
      HistoryOutside(repo, events, {}, target, bullet);
      PrintedParts(repo.changelogs[target], bullet);
      PrintedParts(after.changelogs[target], bullet);
      OutsideMeans(repo.changelogs[target], {}, bullet);
      assert {} + Released(events) == Released(events);
      OutsideMeans(after.changelogs[target], Released(events), bullet);
      var d := Parse(after.changelogs[target]);
      var k := OnePrints(d.sections, bullet);
      ElsewhereAt(d.sections, k, Released(events), bullet);
      StandsMeans(d, k, bullet);
    }
  }

  lemma PrintedParts(markdown: string, bullet: string)
    ensures PrintedIn(markdown, bullet)
         == Printed(Parse(markdown).preamble, bullet) + Elsewhere(Parse(markdown).sections, {}, bullet)
  {
    var d := Parse(markdown);
    hide Parse, Printed, Elsewhere, FlattenSections;
    PrintedConcat(d.preamble, FlattenSections(d.sections), bullet);
    SectionsPrint(d.sections, bullet);
  }

  lemma StandsMeans(d: Document, k: nat, bullet: string)
    requires k < |d.sections| && Printed(SectionLines(d.sections[k]), bullet) == 1 && Printed(d.preamble, bullet) == 0
    requires forall i :: 0 <= i < |d.sections| && i != k ==> Printed(SectionLines(d.sections[i]), bullet) == 0
    ensures StandsIn(d, k, bullet)
  {
    hide Printed, SectionLines;
  }
}
