/** What one release keeps: nothing pending is lost and nothing is printed twice. */
module Releases {
  import opened JsText
  import opened Markdown
  import opened Fragments
  import opened ChangeSections
  import opened Changelog
  import opened Editing
  import opened Ledger
  import opened ReleaseRun

  // ---- pending bullets

  /** How often a fragment will print the bullet for the target. */
  function Owes(f: Fragment, target: Target, bullet: string): nat {
    if target in f.targets && Bullet(f) == bullet then 1 else 0
  }

  function FilePending(file: File, target: Target, bullet: string): nat {
    if Parses(file) then Owes(FragmentIn(file), target, bullet) else 0
  }

  /** How often the pending files will print the bullet for the target. */
  function Pending(files: seq<File>, target: Target, bullet: string): nat {
    if files == [] then 0 else FilePending(files[0], target, bullet) + Pending(files[1..], target, bullet)
  }

  lemma {:induction false} PendingConcat(a: seq<File>, b: seq<File>, target: Target, bullet: string)
    ensures Pending(a + b, target, bullet) == Pending(a, target, bullet) + Pending(b, target, bullet)
  {
    hide FilePending;
    if a == [] {
      assert a + b == b;
    } else {
      PendingConcat(a[1..], b, target, bullet);
      assert (a + b)[1..] == a[1..] + b;
    }
  }

  lemma {:induction false} PendingIsFragmentBullets(files: seq<File>, target: Target, bullet: string)
    requires AllParse(files)
    ensures Pending(files, target, bullet) == FragmentBullets(FragmentsIn(files), target, bullet)
  {
    hide Parses, FragmentIn, Bullet;
    if files != [] {
      PendingIsFragmentBullets(files[1..], target, bullet);
      assert FragmentsIn(files)[1..] == FragmentsIn(files[1..]);
    }
  }

  lemma {:induction false} LeftMeans(targets: seq<Target>, selected: set<Target>)
    ensures forall t :: t in TargetsLeft(targets, selected) <==> t in targets && t !in selected
    ensures Distinct(targets) ==> Distinct(TargetsLeft(targets, selected))
  {
    if targets != [] {
      LeftMeans(targets[1..], selected);
      var rest := TargetsLeft(targets[1..], selected);
      assert targets == [targets[0]] + targets[1..];
      if targets[0] !in selected {
        assert TargetsLeft(targets, selected) == [targets[0]] + rest;
        assert Distinct(targets) ==> targets[0] !in rest;
      }
    }
  }

  /** A rewritten fragment is valid, keeps its bullet, and still parses without problems. */
  lemma RewrittenParses(f: Fragment, left: seq<Target>, path: string)
    requires ValidFragment(f) && left != [] && Distinct(left)
    ensures var file := File(path, Parsed(FragmentJson(f.(targets := left))));
            Parses(file) && FragmentIn(file) == f.(targets := left) && Bullet(FragmentIn(file)) == Bullet(f)
  {
    hide FragmentOf, FragmentJson;
    WriteThenParse(f.(targets := left));
  }

  /** A file that is dealt with owes nothing to the selected targets and what it owed to all
      the others. */
  lemma FileLeftOwes(file: File, selected: set<Target>, target: Target, bullet: string)
    requires Parses(file)
    ensures AllParse(FileLeft(file, selected))
    ensures Pending(FileLeft(file, selected), target, bullet)
         == if target in selected then 0 else FilePending(file, target, bullet)
  {
    hide *;
    var f := FragmentIn(file);
    var left := TargetsLeft(f.targets, selected);
    FileLeftMeans(file, selected);
    ParsedIsValid(file);
    LeftMeans(f.targets, selected);
    TouchesMeans(f, selected);
    OwesMeans(file, target, bullet);
    NoneParse(target, bullet);
    OneParses(file);
    PendingOne(file, target, bullet);
    var next := File(file.path, Parsed(FragmentJson(f.(targets := left))));
    if left != [] {
      RewrittenParses(f, left, file.path);
      OneParses(next);
      PendingOne(next, target, bullet);
      OwesMeans(next, target, bullet);
    }
  }

  lemma FileLeftMeans(file: File, selected: set<Target>)
    requires Parses(file)
    ensures (var f := FragmentIn(file);
             var left := TargetsLeft(f.targets, selected);
             FileLeft(file, selected)
             == if !Touches(f, selected) then [file]
                else if left == [] then []
                else [File(file.path, Parsed(FragmentJson(f.(targets := left))))])
  {
    hide Touches, TargetsLeft, FragmentIn, Parses, FragmentJson;
  }

  lemma ParsedIsValid(file: File)
    requires Parses(file)
    ensures ValidFragment(FragmentIn(file)) && Distinct(FragmentIn(file).targets)
  {
    hide FragmentOf, Distinct;
    AcceptedIsValid(file.content);
    ParsesMeans(file);
    ValidMeans(FragmentIn(file));
  }

  lemma TouchesMeans(f: Fragment, selected: set<Target>)
    ensures Touches(f, selected) <==> exists t :: t in f.targets && t in selected
  {
  }

  lemma OwesMeans(file: File, target: Target, bullet: string)
    requires Parses(file)
    ensures FilePending(file, target, bullet)
         == if target in FragmentIn(file).targets && Bullet(FragmentIn(file)) == bullet then 1 else 0
  {
    hide Parses, FragmentIn, Bullet;
  }

  lemma NoneParse(target: Target, bullet: string)
    ensures AllParse([]) && Pending([], target, bullet) == 0
  {
  }

  lemma OneParses(file: File)
    ensures AllParse([file]) <==> Parses(file)
  {
    hide Parses;
    assert [file][0] == file;
  }

  lemma ValidMeans(f: Fragment)
    requires ValidFragment(f)
    ensures Distinct(f.targets)
  {
  }

  lemma PendingOne(file: File, target: Target, bullet: string)
    ensures Pending([file], target, bullet) == FilePending(file, target, bullet)
  {
    assert [file][1..] == [];
  }

  lemma {:induction false} FilesLeftOwe(files: seq<File>, selected: set<Target>, target: Target, bullet: string)
    requires AllParse(files)
    ensures AllParse(FilesLeft(files, selected))
    ensures Pending(FilesLeft(files, selected), target, bullet)
         == if target in selected then 0 else Pending(files, target, bullet)
  {
    hide Parses, FileLeft, FilesLeft, FilePending;
    if files == [] {
      NoFilesLeft(selected);
    } else {
      var first, tail := files[0], files[1..];
      assert files == [first] + tail;
      FilesLeftCons(first, tail, selected);
      FilesLeftOwe(tail, selected, target, bullet);
      FileLeftOwes(first, selected, target, bullet);
      PendingConcat(FileLeft(first, selected), FilesLeft(tail, selected), target, bullet);
    }
  }

  lemma {:induction false} TouchingBullets(fragments: seq<Fragment>, selected: set<Target>, target: Target, bullet: string)
    requires target in selected
    ensures FragmentBullets(Touching(fragments, selected), target, bullet) == FragmentBullets(fragments, target, bullet)
  {
    hide Bullet;
    if fragments != [] {
      var f, rest := fragments[0], Touching(fragments[1..], selected);
      TouchingBullets(fragments[1..], selected, target, bullet);
      if Touches(f, selected) {
        assert ([f] + rest)[1..] == rest;
      } else {
        assert target !in f.targets;
        assert [] + rest == rest;
      }
    }
  }

  lemma {:induction false} TouchingValid(fragments: seq<Fragment>, selected: set<Target>)
    requires AllValid(fragments)
    ensures AllValid(Touching(fragments, selected))
  {
    hide ValidFragment;
    if fragments != [] {
      TouchingValid(fragments[1..], selected);
    }
  }

  lemma FragmentsInValid(files: seq<File>)
    requires AllParse(files)
    ensures AllValid(FragmentsIn(files))
  {
    hide Parses, FragmentIn, FragmentOf, ValidFragment;
    forall i | 0 <= i < |files| ensures ValidFragment(FragmentsIn(files)[i]) {
      ParsesMeans(files[i]);
      AcceptedIsValid(files[i].content);
    }
  }

  // ---- the changelogs of one run

  /** Every selected changelog is written from its old text; the others stay. */
  lemma {:induction false} WritesEach(changelogs: map<Target, string>, targets: seq<Target>, version: string, date: string,
                                      fragments: seq<Fragment>)
    requires Complete(changelogs) && Distinct(targets)
    requires WriteChangelogs(changelogs, targets, version, date, fragments).1
    ensures var written := WriteChangelogs(changelogs, targets, version, date, fragments).0;
            && changelogs.Keys == written.Keys
            && (forall t :: t in targets ==>
                  t in changelogs && Apply(changelogs[t], t, version, date, fragments) == Some(written[t]))
            && (forall t :: t in changelogs && t !in targets ==> written[t] == changelogs[t])
  {
    hide Apply;
    if targets != [] {
      var first, rest := targets[0], targets[1..];
      AllTargets(first);
      var next := Apply(changelogs[first], first, version, date, fragments).value;
      WritesEach(changelogs[first := next], rest, version, date, fragments);
      assert targets == [first] + rest;
      assert first !in rest;
    }
  }

  /** Nothing refuses the writing when each selected changelog has a place for the release. */
  lemma {:induction false} WritesAll(changelogs: map<Target, string>, targets: seq<Target>, version: string, date: string,
                                     fragments: seq<Fragment>)
    requires Complete(changelogs) && Distinct(targets)
    requires forall t :: t in targets ==> t in changelogs && Apply(changelogs[t], t, version, date, fragments).Some?
    ensures WriteChangelogs(changelogs, targets, version, date, fragments).1
  {
    hide Apply;
    if targets != [] {
      var first, rest := targets[0], targets[1..];
      assert targets == [first] + rest;
      assert first !in rest;
      var next := Apply(changelogs[first], first, version, date, fragments).value;
      WritesAll(changelogs[first := next], rest, version, date, fragments);
    }
  }

  /** How often the section that the release replaces prints the bullet. */
  function ReplacedPrints(markdown: string, version: string, bullet: string): nat {
    match PlaceFor(Parse(markdown).sections, version)
    case None => 0
    case Some(p) => Printed(FlattenSections(p.replaced), bullet)
  }

  /** A finished run, target by target: a selected target prints what was pending for it and
      nothing is left pending; what a replaced section printed is gone.  The other targets
      print and owe what they did. */
  lemma RunLedger(repo: Repo, o: Options, target: Target, bullet: string)
    requires Complete(repo.changelogs) && Run(repo, o).1 == Done && !o.dryRun && IsBullet(bullet)
    ensures target in repo.changelogs && target in Run(repo, o).0.changelogs
    ensures AllParse(Run(repo, o).0.files)
    ensures var after := Run(repo, o).0;
            if target in o.targets then
              && PrintedIn(after.changelogs[target], bullet) + ReplacedPrints(repo.changelogs[target], o.version, bullet)
                 == PrintedIn(repo.changelogs[target], bullet) + Pending(repo.files, target, bullet)
              && Pending(after.files, target, bullet) == 0
            else
              && after.changelogs[target] == repo.changelogs[target]
              && Pending(after.files, target, bullet) == Pending(repo.files, target, bullet)
  {
    var selected := SetOf(o.targets);
    var fragments := FragmentsIn(repo.files);
    var consumed := Touching(fragments, selected);
    RunUnfold(repo, o);
    FragmentsInValid(repo.files);
    TouchingValid(fragments, selected);
    ArgumentsArePlain(o.version, o.date);
    assert GoodArguments(o.version, o.date, consumed);
    assert target in selected <==> target in o.targets;
    hide *;
    AllTargetsComplete(repo.changelogs, target);
    AllTargetsComplete(Run(repo, o).0.changelogs, target);
    FilesLeftOwe(repo.files, selected, target, bullet);
    WritesEach(repo.changelogs, o.targets, o.version, o.date, consumed);
    if target in o.targets {
      PlaceExists(repo.changelogs[target], target, o.version, o.date, consumed);
      var p := PlaceFor(Parse(repo.changelogs[target]).sections, o.version).value;
      ApplyLedger(repo.changelogs[target], target, o.version, o.date, consumed, p, bullet);
      TouchingBullets(fragments, selected, target, bullet);
      PendingIsFragmentBullets(repo.files, target, bullet);
      ReplacedMeans(repo.changelogs[target], o.version, bullet, p);
    }
  }

  lemma AllTargetsComplete(changelogs: map<Target, string>, target: Target)
    requires Complete(changelogs)
    ensures target in changelogs
  {
    AllTargets(target);
  }

  lemma PlaceExists(markdown: string, target: Target, version: string, date: string, fragments: seq<Fragment>)
    ensures Apply(markdown, target, version, date, fragments).Some? <==> PlaceFor(Parse(markdown).sections, version).Some?
  {
    hide Parse, Render, PlaceFor, Release, Canonical;
  }

  lemma ReplacedMeans(markdown: string, version: string, bullet: string, p: Place)
    requires PlaceFor(Parse(markdown).sections, version) == Some(p)
    ensures ReplacedPrints(markdown, version, bullet) == Printed(FlattenSections(p.replaced), bullet)
  {
  }

  /** Printed and pending together, for one target and one bullet. */
  function Total(repo: Repo, target: Target, bullet: string): nat
    requires Complete(repo.changelogs)
  {
    AllTargets(target);
    PrintedIn(repo.changelogs[target], bullet) + Pending(repo.files, target, bullet)
  }

  /** A run conserves the bullets of a target exactly when the section it replaces there, if
      any, does not print them. */
  lemma RunConservesExactly(repo: Repo, o: Options, target: Target, bullet: string)
    requires Complete(repo.changelogs) && Run(repo, o).1 == Done && !o.dryRun && IsBullet(bullet)
    ensures target in repo.changelogs
    ensures Total(Run(repo, o).0, target, bullet) == Total(repo, target, bullet)
       <==> target !in o.targets || ReplacedPrints(repo.changelogs[target], o.version, bullet) == 0
  {
    hide Run, PrintedIn, Pending, ReplacedPrints;
    RunLedger(repo, o, target, bullet);
  }
}
