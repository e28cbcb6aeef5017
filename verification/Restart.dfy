/** Running the release command again after it stopped half-way. */
module Restart {
  import opened JsText
  import opened Markdown
  import opened Fragments
  import opened ChangeSections
  import opened Changelog
  import opened Reparse
  import opened Editing
  import opened Ledger
  import opened ReleaseRun
  import opened Releases

  function ConsumedBy(repo: Repo, o: Options): seq<Fragment>
    requires AllParse(repo.files)
  {
    Touching(FragmentsIn(repo.files), SetOf(o.targets))
  }

  /** The working tree after `j` changelog writes, before any fragment file is touched. */
  function StoppedAfter(repo: Repo, o: Options, j: nat): (r: Repo)
    requires Complete(repo.changelogs) && AllParse(repo.files) && j <= |o.targets|
    ensures Complete(r.changelogs) && r.files == repo.files
  {
    repo.(changelogs := WriteChangelogs(repo.changelogs, o.targets[..j], o.version, o.date, ConsumedBy(repo, o)).0)
  }

  lemma DoneMeans(repo: Repo, o: Options)
    requires Complete(repo.changelogs) && Run(repo, o).1 == Done && !o.dryRun
    ensures ValidOptions(o) && AllParse(repo.files) && ConsumedBy(repo, o) != []
    ensures GoodArguments(o.version, o.date, ConsumedBy(repo, o)) && Distinct(o.targets)
    ensures WriteChangelogs(repo.changelogs, o.targets, o.version, o.date, ConsumedBy(repo, o)).1
    ensures Run(repo, o).0 == Repo(WriteChangelogs(repo.changelogs, o.targets, o.version, o.date, ConsumedBy(repo, o)).0,
                                   FilesLeft(repo.files, SetOf(o.targets)))
  {
    hide Touching, Parses, FragmentIn, FilesLeft, ValidFragment, WriteChangelogs, IsVersionArgument, IsDateArgument, Plain;
    FragmentsInValid(repo.files);
    TouchingValid(FragmentsIn(repo.files), SetOf(o.targets));
    ArgumentsArePlain(o.version, o.date);
  }

  /** The texts of the first `j` targets are written, the others are as they were. */
  lemma StoppedTexts(repo: Repo, o: Options, j: nat)
    requires Complete(repo.changelogs) && Run(repo, o).1 == Done && !o.dryRun && j <= |o.targets|
    ensures AllParse(repo.files)
    ensures var mid, full := StoppedAfter(repo, o, j).changelogs, Run(repo, o).0.changelogs;
            && mid.Keys == full.Keys == repo.changelogs.Keys
            && forall t :: t in mid ==> mid[t] == if t in o.targets[..j] then full[t] else repo.changelogs[t]
  {
    DoneMeans(repo, o);
    var fragments := ConsumedBy(repo, o);
    hide Run, ConsumedBy, Apply, WriteChangelogs, Parses, ValidOptions;
    WritesEach(repo.changelogs, o.targets, o.version, o.date, fragments);
    forall t | t in o.targets[..j]
      ensures t in repo.changelogs && Apply(repo.changelogs[t], t, o.version, o.date, fragments).Some?
    {
      assert t in o.targets;
    }
    WritesAll(repo.changelogs, o.targets[..j], o.version, o.date, fragments);
    WritesEach(repo.changelogs, o.targets[..j], o.version, o.date, fragments);
  }

  /** What the repeated run writes: the texts of the uninterrupted run, except that a `\r\n`
      left in a text that had been written before the stop is replaced. */
  lemma RestartTexts(repo: Repo, o: Options, j: nat)
    requires Complete(repo.changelogs) && Run(repo, o).1 == Done && !o.dryRun && j <= |o.targets|
    ensures AllParse(repo.files)
    ensures var full, again := Run(repo, o).0, Run(StoppedAfter(repo, o, j), o);
            && again.1 == Done && again.0.files == full.files
            && again.0.changelogs.Keys == full.changelogs.Keys
            && (forall t :: t in full.changelogs ==>
                  again.0.changelogs[t] ==
                  if t in o.targets[..j] then NormalizeNewlines(full.changelogs[t]) else full.changelogs[t])
  {
    DoneMeans(repo, o);
    StoppedTexts(repo, o, j);
    var mid := StoppedAfter(repo, o, j);
    var fragments := ConsumedBy(repo, o);
    var full := Run(repo, o).0;
    RunUnfold(mid, o);
    assert ConsumedBy(mid, o) == fragments;
    hide Run, Apply, WriteChangelogs, Parses, ValidOptions, NormalizeNewlines, StoppedAfter, FilesLeft, GoodArguments;
    WritesEach(repo.changelogs, o.targets, o.version, o.date, fragments);
    forall t | t in o.targets
      ensures t in mid.changelogs && Apply(mid.changelogs[t], t, o.version, o.date, fragments) ==
                Some(if t in o.targets[..j] then NormalizeNewlines(full.changelogs[t]) else full.changelogs[t])
    {
      if t in o.targets[..j] {
        Reapply(repo.changelogs[t], t, o.version, o.date, fragments);
      }
    }
    WritesAll(mid.changelogs, o.targets, o.version, o.date, fragments);
    WritesEach(mid.changelogs, o.targets, o.version, o.date, fragments);
    forall t | t in o.targets[..j] ensures t in o.targets {
    }
  }

  /** Restart safety, exactly: a run that stopped after `j` changelog writes and is repeated ends
      like an uninterrupted one if and only if none of the texts written before the stop
      contains a `\r\n`. */
  lemma RestartExactly(repo: Repo, o: Options, j: nat)
    requires Complete(repo.changelogs) && Run(repo, o).1 == Done && !o.dryRun && j <= |o.targets|
    ensures AllParse(repo.files)
    ensures Run(StoppedAfter(repo, o, j), o) == Run(repo, o)
       <==> forall t :: t in o.targets[..j] ==>
              t in StoppedAfter(repo, o, j).changelogs && !HasPair(StoppedAfter(repo, o, j).changelogs[t], '\r', '\n')
  {
    hide *;
    StoppedTexts(repo, o, j);
    RestartTexts(repo, o, j);
    var full, again, mid := Run(repo, o), Run(StoppedAfter(repo, o, j), o), StoppedAfter(repo, o, j);
    TextsAgreeExactly(full.0.changelogs, again.0.changelogs, o.targets[..j]) by {
      forall t | t in o.targets[..j] ensures t in full.0.changelogs {
        AllTargetsComplete(full.0.changelogs, t);
      }
    }
    DoneMeans(repo, o);
    forall t | t in o.targets[..j]
      ensures t in full.0.changelogs && t in mid.changelogs && mid.changelogs[t] == full.0.changelogs[t]
    {
      AllTargetsComplete(full.0.changelogs, t);
      AllTargetsComplete(mid.changelogs, t);
    }
    assert again == full <==> again.0.changelogs == full.0.changelogs;
  }

  lemma TextsAgreeExactly(full: map<Target, string>, again: map<Target, string>, first: seq<Target>)
    requires again.Keys == full.Keys && forall t :: t in first ==> t in full
    requires forall t :: t in full ==> again[t] == if t in first then NormalizeNewlines(full[t]) else full[t]
    ensures again == full <==> forall t :: t in first ==> !HasPair(full[t], '\r', '\n')
  {
    hide NormalizeNewlines, HasPair;
    forall t | t in first ensures again[t] == full[t] <==> !HasPair(full[t], '\r', '\n') {
      NormalizeFixed(full[t]);
    }
  }

  lemma NormalizeFixed(s: string)
    ensures NormalizeNewlines(s) == s <==> !HasPair(s, '\r', '\n')
  {
    NormalizeShrinks(s);
    if !HasPair(s, '\r', '\n') {
      NormalizeIdentity(s);
    }
  }

  // ---- a stop among the fragment files

  /** The written release is found again, and prints what its fragments owe. */
  lemma WrittenReleasePrints(markdown: string, target: Target, version: string, date: string,
                             fragments: seq<Fragment>, bullet: string)
    requires GoodArguments(version, date, fragments) && fragments != [] && IsBullet(bullet)
    requires Apply(markdown, target, version, date, fragments).Some?
    ensures ReplacedPrints(Apply(markdown, target, version, date, fragments).value, version, bullet)
         == FragmentBullets(fragments, target, bullet)
  {
    PlaceExists(markdown, target, version, date, fragments);
    var d := Parse(markdown);
    var p := PlaceFor(d.sections, version).value;
    var s := Settled(Release(target, version, date, fragments), p.after);
    OnlyOneSectionChanges(markdown, target, version, date, fragments, p);
    ReleaseIsSafeSection(target, version, date, fragments);
    PlaceCuts(d.sections, version, p);
    var before, after := ChopSections(p.before), ChopSections(p.after);
    forall i | 0 <= i < |before| ensures !IsReleaseOf(before[i], version) {
      ChopKeepsRelease(p.before[i], version);
    }
    PlaceFound(before, s, after, version);
    FlattenOne(s);
    ReleasePrints(target, version, date, fragments, p.after, bullet);
  }

  /** The working tree when all changelogs are written and `i` fragment files are dealt with. */
  function StoppedLate(repo: Repo, o: Options, i: nat): (r: Repo)
    requires Complete(repo.changelogs) && AllParse(repo.files) && i <= |repo.files|
    ensures Complete(r.changelogs)
  {
    Repo(Run(repo, o).0.changelogs, Consumed(repo.files, i, SetOf(o.targets)))
  }

  /** After the first fragment file is touched a repeated run is not safe: if it finishes, the
      bullets of the files that had been dealt with are gone from the selected changelogs. */
  lemma LateRestartLoses(repo: Repo, o: Options, i: nat, target: Target, bullet: string)
    requires Complete(repo.changelogs) && Run(repo, o).1 == Done && !o.dryRun && IsBullet(bullet)
    requires AllParse(repo.files) && i <= |repo.files| && Run(StoppedLate(repo, o, i), o).1 == Done && target in o.targets
    ensures target in repo.changelogs
    ensures PrintedIn(Run(StoppedLate(repo, o, i), o).0.changelogs[target], bullet)
            + Pending(repo.files[..i], target, bullet)
         == PrintedIn(Run(repo, o).0.changelogs[target], bullet)
  {
    hide *;
    var fragments := ConsumedBy(repo, o);
    DoneMeans(repo, o);
    AllTargetsComplete(repo.changelogs, target);
    AllTargetsComplete(Run(repo, o).0.changelogs, target);
    RunLedger(StoppedLate(repo, o, i), o, target, bullet);
    LateMeans(repo, o, i, target, bullet);
    WritesEach(repo.changelogs, o.targets, o.version, o.date, fragments);
    WrittenReleasePrints(repo.changelogs[target], target, o.version, o.date, fragments, bullet);
    ConsumedBullets(repo, o, target, bullet);
  }

  lemma LateMeans(repo: Repo, o: Options, i: nat, target: Target, bullet: string)
    requires Complete(repo.changelogs) && AllParse(repo.files) && i <= |repo.files| && target in o.targets
    ensures var late := StoppedLate(repo, o, i);
            && late.changelogs == Run(repo, o).0.changelogs
            && Pending(late.files, target, bullet) + Pending(repo.files[..i], target, bullet)
               == Pending(repo.files, target, bullet)
  {
    hide *;
    var selected, front, back := SetOf(o.targets), repo.files[..i], repo.files[i..];
    LateUnfold(repo, o, i);
    assert repo.files == front + back;
    PendingConcat(front, back, target, bullet);
    FilesLeftOwe(front, selected, target, bullet);
    PendingConcat(FilesLeft(front, selected), back, target, bullet);
    SetOfMeans(o.targets, target);
  }

  lemma LateUnfold(repo: Repo, o: Options, i: nat)
    requires Complete(repo.changelogs) && AllParse(repo.files) && i <= |repo.files|
    ensures AllParse(repo.files[..i])
    ensures StoppedLate(repo, o, i).changelogs == Run(repo, o).0.changelogs
    ensures StoppedLate(repo, o, i).files == FilesLeft(repo.files[..i], SetOf(o.targets)) + repo.files[i..]
  {
    hide Run, FilesLeft, Parses;
  }

  lemma SetOfMeans(targets: seq<Target>, t: Target)
    ensures t in SetOf(targets) <==> t in targets
  {
  }

  lemma ConsumedBullets(repo: Repo, o: Options, target: Target, bullet: string)
    requires AllParse(repo.files) && target in o.targets
    ensures FragmentBullets(ConsumedBy(repo, o), target, bullet) == Pending(repo.files, target, bullet)
  {
    hide Parses, FragmentIn, Touching, Pending;
    assert target in SetOf(o.targets);
    TouchingBullets(FragmentsIn(repo.files), SetOf(o.targets), target, bullet);
    PendingIsFragmentBullets(repo.files, target, bullet);
  }
}
