/** A release that stops because a changelog has no Unreleased section: what is printed and still
    pending then, and what a second run makes of it once the section is there. */
module Stopped {
  import opened JsText
  import opened Markdown
  import opened Fragments
  import opened ChangeSections
  import opened Changelog
  import opened Editing
  import opened Ledger
  import opened ReleaseRun
  import opened Releases
  import opened Restart
  import opened Idempotence

  /** A release of the version has somewhere to go. */
  predicate HasPlace(markdown: string, version: string) {
    PlaceFor(Parse(markdown).sections, version).Some?
  }

  /** The changelogs of these targets have a place for the version. */
  predicate Placed(changelogs: map<Target, string>, targets: seq<Target>, version: string) {
    forall t :: t in targets ==> t in changelogs && HasPlace(changelogs[t], version)
  }

  /** How many targets are written before one without a place is met. */
  function Placeable(changelogs: map<Target, string>, targets: seq<Target>, version: string): (k: nat)
    requires Complete(changelogs)
    ensures k <= |targets|
  {
    if targets == [] then 0
    else
      AllTargets(targets[0]);
      if HasPlace(changelogs[targets[0]], version) then 1 + Placeable(changelogs, targets[1..], version) else 0
  }

  lemma {:induction false} PlaceableMeans(changelogs: map<Target, string>, targets: seq<Target>, version: string)
    requires Complete(changelogs)
    ensures var k := Placeable(changelogs, targets, version);
            && Placed(changelogs, targets[..k], version)
            && (k < |targets| ==> targets[k] in changelogs && !HasPlace(changelogs[targets[k]], version))
  {
    hide HasPlace;
    var k := Placeable(changelogs, targets, version);
    if k > 0 {
      AllTargets(targets[0]);
      PlaceableMeans(changelogs, targets[1..], version);
      assert targets[..k] == [targets[0]] + targets[1..][..k - 1];
    } else if targets != [] {
      AllTargets(targets[0]);
    }
  }

  lemma PlaceableAll(changelogs: map<Target, string>, targets: seq<Target>, version: string)
    requires Complete(changelogs)
    ensures Placeable(changelogs, targets, version) == |targets| <==> Placed(changelogs, targets, version)
  {
    hide HasPlace;
    var k := Placeable(changelogs, targets, version);
    PlaceableMeans(changelogs, targets, version);
    assert targets[..|targets|] == targets;
    assert k < |targets| ==> targets[k] in targets;
  }

  lemma {:induction false} PlaceableSame(changelogs: map<Target, string>, others: map<Target, string>, targets: seq<Target>,
                                         version: string)
    requires Complete(changelogs) && Complete(others)
    requires forall t :: t in targets ==> t in changelogs && t in others && changelogs[t] == others[t]
    ensures Placeable(changelogs, targets, version) == Placeable(others, targets, version)
  {
    hide HasPlace;
    if targets != [] {
      assert targets == [targets[0]] + targets[1..];
      PlaceableSame(changelogs, others, targets[1..], version);
    }
  }

  lemma WritesPlaced(markdown: string, target: Target, version: string, date: string, fragments: seq<Fragment>)
    ensures Apply(markdown, target, version, date, fragments).Some? <==> HasPlace(markdown, version)
  {
    hide Apply, Parse, PlaceFor;
    PlaceExists(markdown, target, version, date, fragments);
  }

  /** The writing stops in front of the first target without a place. */
  lemma {:induction false} WritesUntil(changelogs: map<Target, string>, targets: seq<Target>, version: string, date: string,
                                       fragments: seq<Fragment>)
    requires Complete(changelogs) && Distinct(targets)
    ensures var k := Placeable(changelogs, targets, version);
            WriteChangelogs(changelogs, targets, version, date, fragments)
            == (WriteChangelogs(changelogs, targets[..k], version, date, fragments).0, k == |targets|)
  {
    hide HasPlace, Apply;
    if targets != [] {
      var first, rest := targets[0], targets[1..];
      AllTargets(first);
      WritesPlaced(changelogs[first], first, version, date, fragments);
      var k := Placeable(changelogs, targets, version);
      if k > 0 {
        assert targets == [first] + rest && first !in rest;
        var next := changelogs[first := Apply(changelogs[first], first, version, date, fragments).value];
        forall t | t in rest ensures t in changelogs {
          AllTargets(t);
        }
        PlaceableSame(changelogs, next, rest, version);
        WritesUntil(next, rest, version, date, fragments);
        assert targets[..k][0] == first && targets[..k][1..] == rest[..k - 1];
      }
    }
  }

  /** The run gets as far as writing. */
  predicate Starts(repo: Repo, o: Options) {
    ValidOptions(o) && AllParse(repo.files) && ConsumedBy(repo, o) != []
  }

  /** What the command line has to be. */
  ghost predicate Acceptable(o: Options) {
    DottedVersion(o.version) && CalendarDate(o.date) && o.targets != [] && Distinct(o.targets)
  }

  lemma AcceptableExactly(o: Options)
    ensures ValidOptions(o) <==> Acceptable(o)
  {
    hide IsVersionArgument, IsDateArgument, DottedVersion, CalendarDate, Distinct;
    VersionExactly(o.version);
    DateExactly(o.date);
  }

  /** Some fragment names one of the targets. */
  ghost predicate SomethingFor(files: seq<File>, targets: seq<Target>) {
    exists i, t :: 0 <= i < |files| && t in targets && Parses(files[i]) && t in FragmentIn(files[i]).targets
  }

  lemma {:induction false} TouchingExactly(fragments: seq<Fragment>, selected: set<Target>)
    ensures Touching(fragments, selected) != []
       <==> exists i, t :: 0 <= i < |fragments| && t in selected && t in fragments[i].targets
  {
    if fragments != [] {
      TouchingExactly(fragments[1..], selected);
      TouchesMeans(fragments[0], selected);
      hide Touches;
      assert forall i :: 0 <= i < |fragments| - 1 ==> fragments[1..][i] == fragments[i + 1];
      assert forall i :: 0 < i < |fragments| ==> fragments[i] == fragments[1..][i - 1];
    }
  }

  lemma ConsumesExactly(repo: Repo, o: Options)
    ensures AllParse(repo.files) ==> (ConsumedBy(repo, o) != [] <==> SomethingFor(repo.files, o.targets))
  {
    hide Touching, Parses, FragmentIn, FragmentOf;
    if AllParse(repo.files) {
      var fragments := FragmentsIn(repo.files);
      TouchingExactly(fragments, SetOf(o.targets));
      forall t ensures t in SetOf(o.targets) <==> t in o.targets {
        SetOfMeans(o.targets, t);
      }
      assert forall i :: 0 <= i < |fragments| ==> fragments[i] == FragmentIn(repo.files[i]);
    }
  }

  /** How a run ends: nothing is written without acceptable arguments, valid files and something to
      consume; otherwise it writes up to the first changelog without a place, and is done when
      there is none. */
  lemma RunEnds(repo: Repo, o: Options)
    requires Complete(repo.changelogs)
    ensures Run(repo, o).1 == UsageError <==> !Acceptable(o)
    ensures Run(repo, o).1 == InvalidFragments <==> Acceptable(o) && !AllParse(repo.files)
    ensures Run(repo, o).1 == NothingToConsume <==> Acceptable(o) && AllParse(repo.files) && !SomethingFor(repo.files, o.targets)
    ensures Starts(repo, o) <==> Acceptable(o) && AllParse(repo.files) && SomethingFor(repo.files, o.targets)
    ensures !Starts(repo, o) ==> Run(repo, o).0 == repo
    ensures var k := Placeable(repo.changelogs, o.targets, o.version);
            Starts(repo, o) ==>
              && Distinct(o.targets)
              && Run(repo, o).1 == (if k == |o.targets| then Done else MissingUnreleased)
              && (o.dryRun ==> Run(repo, o).0 == repo)
              && (k < |o.targets| && !o.dryRun ==> Run(repo, o).0 == StoppedAfter(repo, o, k))
  {
    AcceptableExactly(o);
    ConsumesExactly(repo, o);
    hide SomethingFor, Touching, Parses, FragmentIn, FilesLeft, WriteChangelogs, IsVersionArgument, IsDateArgument, Distinct, Placeable, Acceptable;
    if Starts(repo, o) {
      WritesUntil(repo.changelogs, o.targets, o.version, o.date, ConsumedBy(repo, o));
    }
  }

  lemma StartsMeans(repo: Repo, o: Options)
    requires Starts(repo, o)
    ensures AllParse(repo.files) && Distinct(o.targets) && ConsumedBy(repo, o) != []
    ensures GoodArguments(o.version, o.date, ConsumedBy(repo, o))
  {
    hide Touching, Parses, FragmentIn, ValidFragment, IsVersionArgument, IsDateArgument, Plain, Distinct;
    FragmentsInValid(repo.files);
    TouchingValid(FragmentsIn(repo.files), SetOf(o.targets));
    ArgumentsArePlain(o.version, o.date);
  }

  /** What `j` writes do to the changelogs. */
  lemma StoppedWrites(repo: Repo, o: Options, j: nat)
    requires Complete(repo.changelogs) && Starts(repo, o) && j <= |o.targets| && Placed(repo.changelogs, o.targets[..j], o.version)
    ensures AllParse(repo.files)
    ensures var mid := StoppedAfter(repo, o, j);
            && mid.files == repo.files && mid.changelogs.Keys == repo.changelogs.Keys
            && (forall t :: t in repo.changelogs ==>
                  if t in o.targets[..j] then
                    Apply(repo.changelogs[t], t, o.version, o.date, ConsumedBy(repo, o)) == Some(mid.changelogs[t])
                  else mid.changelogs[t] == repo.changelogs[t])
  {
    StartsMeans(repo, o);
    var fragments := ConsumedBy(repo, o);
    hide ConsumedBy, Apply, WriteChangelogs, Parses, Starts, HasPlace;
    forall t | t in o.targets[..j]
      ensures t in repo.changelogs && Apply(repo.changelogs[t], t, o.version, o.date, fragments).Some?
    {
      WritesPlaced(repo.changelogs[t], t, o.version, o.date, fragments);
    }
    WritesAll(repo.changelogs, o.targets[..j], o.version, o.date, fragments);
    WritesEach(repo.changelogs, o.targets[..j], o.version, o.date, fragments);
  }

  /** After `j` writes the written changelogs print what is still pending for them, and what the
      sections they replaced printed is gone. */
  lemma StoppedLedger(repo: Repo, o: Options, j: nat, target: Target, bullet: string)
    requires Complete(repo.changelogs) && Starts(repo, o) && IsBullet(bullet)
    requires j <= |o.targets| && Placed(repo.changelogs, o.targets[..j], o.version)
    ensures AllParse(repo.files)
    ensures target in repo.changelogs && target in StoppedAfter(repo, o, j).changelogs
    ensures var before, after := repo.changelogs[target], StoppedAfter(repo, o, j).changelogs[target];
            if target in o.targets[..j] then
              PrintedIn(after, bullet) + ReplacedPrints(before, o.version, bullet)
              == PrintedIn(before, bullet) + Pending(repo.files, target, bullet)
            else after == before
  {
    hide *;
    StartsMeans(repo, o);
    StoppedWrites(repo, o, j);
    AllTargetsComplete(repo.changelogs, target);
    AllTargetsComplete(StoppedAfter(repo, o, j).changelogs, target);
    if target in o.targets[..j] {
      var fragments, text := ConsumedBy(repo, o), repo.changelogs[target];
      assert target in o.targets;
      PlaceExists(text, target, o.version, o.date, fragments);
      var p := PlaceFor(Parse(text).sections, o.version).value;
      ApplyLedger(text, target, o.version, o.date, fragments, p, bullet);
      ReplacedMeans(text, o.version, bullet, p);
      ConsumedBullets(repo, o, target, bullet);
    }
  }

  /** Conservation, for every run: a finished run conserves the bullets of a target exactly when
      the section it replaces there prints none; a run that met a changelog without a place, when
      it did not write the target or replaced as many as it printed, since these bullets stay
      pending; every other run changes nothing. */
  lemma ConservesExactly(repo: Repo, o: Options, target: Target, bullet: string)
    requires Complete(repo.changelogs) && IsBullet(bullet)
    ensures target in repo.changelogs
    ensures var k := Placeable(repo.changelogs, o.targets, o.version);
            var replaced := ReplacedPrints(repo.changelogs[target], o.version, bullet);
            Total(Run(repo, o).0, target, bullet) == Total(repo, target, bullet) <==>
              || o.dryRun
              || (match Run(repo, o).1
                  case Done => target !in o.targets || replaced == 0
                  case MissingUnreleased => target !in o.targets[..k] || replaced == Pending(repo.files, target, bullet)
                  case _ => true)
  {
    hide *;
    AllTargetsComplete(repo.changelogs, target);
    RunEnds(repo, o);
    if Starts(repo, o) && !o.dryRun {
      var k := Placeable(repo.changelogs, o.targets, o.version);
      PlaceableMeans(repo.changelogs, o.targets, o.version);
      if k < |o.targets| {
        StoppedLedger(repo, o, k, target, bullet);
        TotalMeans(repo, target, bullet);
        TotalMeans(StoppedAfter(repo, o, k), target, bullet);
      } else {
        RunConservesExactly(repo, o, target, bullet);
      }
    }
  }

  lemma TotalMeans(repo: Repo, target: Target, bullet: string)
    requires Complete(repo.changelogs)
    ensures target in repo.changelogs
    ensures Total(repo, target, bullet) == PrintedIn(repo.changelogs[target], bullet) + Pending(repo.files, target, bullet)
  {
    hide PrintedIn, Pending;
    AllTargets(target);
  }

  // ---- running again

  /** A repeated run prints and owes what an uninterrupted one does. */
  lemma RestartConserves(repo: Repo, o: Options, j: nat, target: Target, bullet: string)
    requires Complete(repo.changelogs) && Run(repo, o).1 == Done && !o.dryRun && j <= |o.targets| && IsBullet(bullet)
    ensures AllParse(repo.files)
    ensures var again, full := Run(StoppedAfter(repo, o, j), o), Run(repo, o);
            && again.1 == Done && again.0.files == full.0.files
            && Total(again.0, target, bullet) == Total(full.0, target, bullet)
  {
    hide *;
    DoneMeans(repo, o);
    RunEnds(repo, o);
    PrefixPlaced(repo.changelogs, o.targets, o.version, j);
    RestartTexts(repo, o, j);
    var mid, full := StoppedAfter(repo, o, j), Run(repo, o).0;
    StoppedLedger(repo, o, j, target, bullet);
    RunLedger(repo, o, target, bullet);
    RunLedger(mid, o, target, bullet);
    TotalMeans(full, target, bullet);
    TotalMeans(Run(mid, o).0, target, bullet);
    StoppedTexts(repo, o, j);
    if target in o.targets[..j] {
      assert target in o.targets;
      var fragments := ConsumedBy(repo, o);
      StoppedWrites(repo, o, j);
      WrittenReleasePrints(repo.changelogs[target], target, o.version, o.date, fragments, bullet);
      ConsumedBullets(repo, o, target, bullet);
    }
  }

  lemma PrefixPlaced(changelogs: map<Target, string>, targets: seq<Target>, version: string, j: nat)
    requires Complete(changelogs) && Placeable(changelogs, targets, version) == |targets| && j <= |targets|
    ensures Placed(changelogs, targets[..j], version)
  {
    hide HasPlace;
    PlaceableAll(changelogs, targets, version);
    assert forall t :: t in targets[..j] ==> t in targets;
  }

  /** Somebody edits changelogs. */
  function Repaired(repo: Repo, fixes: map<Target, string>): (r: Repo)
    requires Complete(repo.changelogs)
    ensures Complete(r.changelogs) && r.files == repo.files
  {
    repo.(changelogs := repo.changelogs + fixes)
  }

  /** Repairing changelogs that were not written yet is as good as repairing them before. */
  lemma RepairCommutes(repo: Repo, o: Options, j: nat, fixes: map<Target, string>)
    requires Complete(repo.changelogs) && Starts(repo, o) && j <= |o.targets| && Placed(repo.changelogs, o.targets[..j], o.version)
    requires forall t :: t in o.targets[..j] ==> t !in fixes
    ensures AllParse(repo.files) && Starts(Repaired(repo, fixes), o)
    ensures Placed(Repaired(repo, fixes).changelogs, o.targets[..j], o.version)
    ensures StoppedAfter(Repaired(repo, fixes), o, j) == Repaired(StoppedAfter(repo, o, j), fixes)
  {
    var fixed := Repaired(repo, fixes);
    StartsMeans(repo, o);
    assert ConsumedBy(fixed, o) == ConsumedBy(repo, o);
    hide ConsumedBy, Apply, Parses, HasPlace, StoppedAfter, ValidOptions;
    StoppedWrites(repo, o, j);
    StoppedWrites(fixed, o, j);
    var mid, late := StoppedAfter(repo, o, j).changelogs, StoppedAfter(fixed, o, j).changelogs;
    forall t | t in o.targets[..j] ensures t in mid && t in late && mid[t] == late[t] {
      assert t in repo.changelogs && fixed.changelogs[t] == repo.changelogs[t];
    }
    RepairedTexts(repo.changelogs, fixes, mid, late, o.targets[..j]);
  }

  /** The texts are told apart by whether they were written, repaired or neither. */
  lemma RepairedTexts(texts: map<Target, string>, fixes: map<Target, string>, mid: map<Target, string>,
                      late: map<Target, string>, written: seq<Target>)
    requires mid.Keys == texts.Keys && late.Keys == (texts + fixes).Keys
    requires forall t :: t in written ==> t in mid && t in late && mid[t] == late[t] && t !in fixes
    requires forall t :: t in texts && t !in written ==> mid[t] == texts[t]
    requires forall t :: t in texts + fixes && t !in written ==> late[t] == (texts + fixes)[t]
    ensures late == mid + fixes
  {
  }

  /** When a run stopped for want of an Unreleased section, the missing sections are put in and
      the run is repeated, it finishes; every bullet is printed and owed as if the sections had
      been there from the start, and the working tree is the same exactly when no line kept in
      the changelogs written before the stop ends in a carriage return. */
  lemma RepairedRunFinishes(repo: Repo, o: Options, fixes: map<Target, string>, target: Target, bullet: string)
    requires Complete(repo.changelogs) && Run(repo, o).1 == MissingUnreleased && !o.dryRun && IsBullet(bullet)
    requires var k := Placeable(repo.changelogs, o.targets, o.version);
             && (forall t :: t in o.targets[..k] ==> t !in fixes)
             && Placed(Repaired(repo, fixes).changelogs, o.targets[k..], o.version)
    ensures var k := Placeable(repo.changelogs, o.targets, o.version);
            var again, whole := Run(Repaired(Run(repo, o).0, fixes), o), Run(Repaired(repo, fixes), o);
            && again.1 == Done && whole.1 == Done && again.0.files == whole.0.files
            && Total(again.0, target, bullet) == Total(whole.0, target, bullet)
            && (again == whole <==>
                forall t :: t in o.targets[..k] ==> t in repo.changelogs && KeepsNoReturn(repo.changelogs[t], o.version))
  {
    hide *;
    var k := Placeable(repo.changelogs, o.targets, o.version);
    var fixed := Repaired(repo, fixes);
    RunEnds(repo, o);
    PlaceableMeans(repo.changelogs, o.targets, o.version);
    RepairCommutes(repo, o, k, fixes);
    RunEnds(fixed, o);
    PlacedJoined(fixed.changelogs, o.targets, o.version, k);
    PlaceableAll(fixed.changelogs, o.targets, o.version);
    RestartConserves(fixed, o, k, target, bullet);
    RestartSafeExactly(fixed, o, k);
    RepairKeeps(repo, fixes, o.targets[..k]);
  }

  lemma PlacedJoined(changelogs: map<Target, string>, targets: seq<Target>, version: string, k: nat)
    requires k <= |targets| && Placed(changelogs, targets[..k], version) && Placed(changelogs, targets[k..], version)
    ensures Placed(changelogs, targets, version)
  {
    hide HasPlace;
    assert targets == targets[..k] + targets[k..];
  }

  lemma RepairKeeps(repo: Repo, fixes: map<Target, string>, targets: seq<Target>)
    requires Complete(repo.changelogs) && forall t :: t in targets ==> t !in fixes
    ensures forall t :: t in targets ==>
              t in repo.changelogs && t in Repaired(repo, fixes).changelogs && Repaired(repo, fixes).changelogs[t] == repo.changelogs[t]
  {
    forall t | t in targets ensures t in repo.changelogs {
      AllTargets(t);
    }
  }
}
