/** The release command (`consume-change-fragments.ts`): fragments move from pending files into
    the changelogs of the selected targets. */
module ReleaseRun {
  import opened JsText
  import opened Fragments
  import opened Changelog

  /** A fragment file.  The directory is the sequence of its `.json` files in listing order. */
  datatype File = File(path: string, content: Content)

  datatype Repo = Repo(changelogs: map<Target, string>, files: seq<File>)

  datatype Options = Options(version: string, date: string, targets: seq<Target>, dryRun: bool)

  datatype Status =
    | UsageError
    | InvalidFragments
    | NothingToConsume
    | MissingUnreleased
    | Done

  predicate Complete(changelogs: map<Target, string>) {
    forall t :: t in TARGETS ==> t in changelogs
  }

  lemma AllTargets(t: Target)
    ensures t in TARGETS
  {
    assert TARGETS[match t case Spec => 0 case Rust => 1 case Kotlin => 2 case TypeScript => 3
                           case Swift => 4 case Go => 5 case Dotnet => 6] == t;
  }

  predicate DistinctPaths(files: seq<File>) {
    forall i, j :: 0 <= i < j < |files| ==> files[i].path != files[j].path
  }

  // ---- arguments

  /** The targets named in a comma-separated list, unless a name is unknown or repeated. */
  predicate NamesTargets(raw: string, targets: seq<Target>) {
    var parts := Split(raw, ',');
    && |parts| == |targets| && Distinct(targets)
    && forall i :: 0 <= i < |parts| ==> parts[i] == TargetName(targets[i])
  }

  method ParseTargets(raw: string) returns (r: Option<seq<Target>>)
    ensures r.Some? ==> NamesTargets(raw, r.value)
    ensures r.None? ==> forall targets :: !NamesTargets(raw, targets)
  {
    if raw == "" {
      assert Split(raw, ',') == [""];
      forall targets: seq<Target> ensures !NamesTargets(raw, targets) {
        if |targets| == 1 {
          assert TargetName(targets[0]) != Split(raw, ',')[0];
        }
      }
      return None;
    }
    var parts := Split(raw, ',');
    var targets: seq<Target> := [];
    var seen: set<Target> := {};
    for i := 0 to |parts|
      invariant |targets| == i && Distinct(targets)
      invariant forall t :: t in seen <==> t in targets
      invariant forall k :: 0 <= k < i ==> parts[k] == TargetName(targets[k])
    {
      var t := TargetNamed(parts[i]);
      if t.None? {
        forall other: seq<Target> ensures !NamesTargets(raw, other) {
          if |other| == |parts| {
            assert TargetName(other[i]) != parts[i];
          }
        }
        return None;
      }
      if t.value in seen {
        var k :| 0 <= k < i && targets[k] == t.value;
        forall other: seq<Target> ensures !NamesTargets(raw, other) {
          if |other| == |parts| && parts[k] == TargetName(other[k]) && parts[i] == TargetName(other[i]) {
            TargetNameInjective(other[k], other[i]);
          }
        }
        return None;
      }
      seen := seen + {t.value};
      targets := targets + [t.value];
    }
    r := Some(targets);
  }

  lemma TargetNameInjective(t: Target, u: Target)
    ensures TargetName(t) == TargetName(u) ==> t == u
  {
    assert TargetNamed(TargetName(t)) == Some(t) && TargetNamed(TargetName(u)) == Some(u);
  }

  predicate ValidOptions(o: Options) {
    IsVersionArgument(o.version) && IsDateArgument(o.date) && o.targets != [] && Distinct(o.targets)
  }

  // ---- one run

  predicate Parses(file: File) {
    FragmentOf(file.content).Some?
  }

  function FragmentIn(file: File): Fragment
    requires Parses(file)
  {
    FragmentOf(file.content).value
  }

  lemma ParsesMeans(file: File)
    ensures Parses(file) <==> FragmentOf(file.content).Some?
    ensures Parses(file) ==> FragmentIn(file) == FragmentOf(file.content).value
  {
  }

  predicate AllParse(files: seq<File>) {
    forall i :: 0 <= i < |files| ==> Parses(files[i])
  }

  function PathsOf(files: seq<File>): seq<string> {
    seq(|files|, i requires 0 <= i < |files| => files[i].path)
  }

  function FragmentsIn(files: seq<File>): seq<Fragment>
    requires AllParse(files)
  {
    seq(|files|, i requires 0 <= i < |files| => FragmentIn(files[i]))
  }

  predicate Touches(f: Fragment, selected: set<Target>) {
    exists i :: 0 <= i < |f.targets| && f.targets[i] in selected
  }

  function Touching(fragments: seq<Fragment>, selected: set<Target>): seq<Fragment> {
    if fragments == [] then []
    else (if Touches(fragments[0], selected) then [fragments[0]] else []) + Touching(fragments[1..], selected)
  }

  function TargetsLeft(targets: seq<Target>, selected: set<Target>): seq<Target> {
    if targets == [] then []
    else (if targets[0] in selected then [] else [targets[0]]) + TargetsLeft(targets[1..], selected)
  }

  /** What becomes of one fragment file: nothing, a rewritten file, or the file as it was. */
  function FileLeft(file: File, selected: set<Target>): seq<File>
    requires Parses(file)
  {
    var f := FragmentIn(file);
    var left := TargetsLeft(f.targets, selected);
    if !Touches(f, selected) then [file]
    else if left == [] then []
    else [File(file.path, Parsed(FragmentJson(f.(targets := left))))]
  }

  function FilesLeft(files: seq<File>, selected: set<Target>): seq<File>
    requires AllParse(files)
  {
    if files == [] then []
    else
      assert AllParse(files[1..]);
      FileLeft(files[0], selected) + FilesLeft(files[1..], selected)
  }

  /** The changelogs after writing the release for the targets in turn, and whether none of
      them was refused; the first refusal stops the writing. */
  function WriteChangelogs(changelogs: map<Target, string>, targets: seq<Target>, version: string, date: string,
                           fragments: seq<Fragment>): (r: (map<Target, string>, bool))
    requires Complete(changelogs)
    ensures Complete(r.0)
  {
    if targets == [] then (changelogs, true)
    else
      AllTargets(targets[0]);
      match Apply(changelogs[targets[0]], targets[0], version, date, fragments)
      case None => (changelogs, false)
      case Some(text) => WriteChangelogs(changelogs[targets[0] := text], targets[1..], version, date, fragments)
  }

  function SetOf(targets: seq<Target>): set<Target> {
    set t | t in targets
  }

  function Run(repo: Repo, o: Options): (r: (Repo, Status))
    requires Complete(repo.changelogs)
    ensures Complete(r.0.changelogs)
  {
    if !ValidOptions(o) then (repo, UsageError)
    else if !AllParse(repo.files) then (repo, InvalidFragments)
    else
      var selected := SetOf(o.targets);
      var consumed := Touching(FragmentsIn(repo.files), selected);
      if consumed == [] then (repo, NothingToConsume)
      else
        var written := WriteChangelogs(repo.changelogs, o.targets, o.version, o.date, consumed);
        if o.dryRun then (repo, if written.1 then Done else MissingUnreleased)
        else if !written.1 then (repo.(changelogs := written.0), MissingUnreleased)
        else (Repo(written.0, FilesLeft(repo.files, selected)), Done)
  }

  // ---- the command on the working tree

  /** The working tree: changelog texts and the fragment directory, rewritten in place. */
  class WorkingTree {
    var changelogs: map<Target, string>
    var files: seq<File>

    constructor (changelogs: map<Target, string>, files: seq<File>)
      ensures this.changelogs == changelogs && this.files == files
    {
      this.changelogs, this.files := changelogs, files;
    }

    ghost function State(): Repo
      reads this
    {
      Repo(changelogs, files)
    }

    method Unlink(path: string)
      modifies this`files
      ensures files == Without(old(files), path)
    {
      files := Without(files, path);
    }

    method Write(path: string, content: Content)
      modifies this`files
      ensures files == Rewritten(old(files), path, content)
    {
      files := Rewritten(files, path, content);
    }

    /** Reads every fragment file; a single problem refuses the run. */
    method ReadFragments() returns (paths: seq<string>, fragments: seq<Fragment>, valid: bool)
      ensures valid <==> AllParse(files)
      ensures valid ==> paths == PathsOf(files) && fragments == FragmentsIn(files)
    {
      hide Parses, FragmentIn, FragmentOf, FragmentProblems;
      paths, fragments, valid := [], [], true;
      for i := 0 to |files|
        invariant valid <==> AllParse(files[..i])
        invariant paths == PathsOf(files[..i])
        invariant valid ==> fragments == FragmentsIn(files[..i])
      {
        ParsesMeans(files[i]);
        paths := paths + [files[i].path];
        var fragment, errors := ParseChangeFragment(files[i].content);
        if fragment.Some? {
          fragments := fragments + [fragment.value];
        } else {
          valid := false;
        }
        assert files[..i + 1] == files[..i] + [files[i]];
      }
      assert files[..|files|] == files;
    }

    method ConsumeChangeFragments(o: Options) returns (status: Status)
      requires Complete(changelogs) && DistinctPaths(files)
      modifies this
      ensures (State(), status) == Run(old(State()), o)
    {
      if !ValidOptions(o) {
        return UsageError;
      }
      var paths, fragments, valid := ReadFragments();
      if !valid {
        return InvalidFragments;
      }
      var selected := SetOf(o.targets);
      var consumed := Touching(fragments, selected);
      if consumed == [] {
        return NothingToConsume;
      }
      hide *;
      RunUnfold(State(), o);
      var ok := WriteAll(o, consumed);
      if !ok {
        return MissingUnreleased;
      }
      if !o.dryRun {
        ConsumeFiles(paths, fragments, selected);
      }
      status := Done;
    }

    /** Writes the changelogs in turn; a refusal stops, leaving the earlier ones written. */
    method WriteAll(o: Options, consumed: seq<Fragment>) returns (ok: bool)
      requires Complete(changelogs) && Distinct(o.targets)
      modifies this`changelogs
      ensures Complete(changelogs)
      ensures var w := WriteChangelogs(old(changelogs), o.targets, o.version, o.date, consumed);
              ok == w.1 && changelogs == if o.dryRun then old(changelogs) else w.0
    {
      hide Apply;
      ghost var before := changelogs;
      ghost var now := changelogs;
      assert o.targets[0..] == o.targets;
      for i := 0 to |o.targets|
        invariant Complete(now) && Complete(changelogs)
        invariant changelogs == if o.dryRun then before else now
        invariant forall k :: i <= k < |o.targets| && o.targets[k] in before ==>
                    o.targets[k] in now && o.targets[k] in changelogs
                    && now[o.targets[k]] == before[o.targets[k]] == changelogs[o.targets[k]]
        invariant WriteChangelogs(before, o.targets, o.version, o.date, consumed)
               == WriteChangelogs(now, o.targets[i..], o.version, o.date, consumed)
      {
        var target := o.targets[i];
        AllTargets(target);
        assert o.targets[i..][1..] == o.targets[i + 1..];
        var next := ApplyReleaseToChangelog(changelogs[target], target, o.version, o.date, consumed);
        if next.None? {
          return false;
        }
        now := now[target := next.value];
        if !o.dryRun {
          changelogs := changelogs[target := next.value];
        }
      }
      ok := true;
    }

    /** Deletes the fragment files that are used up and rewrites those with targets left. */
    method ConsumeFiles(paths: seq<string>, fragments: seq<Fragment>, selected: set<Target>)
      requires AllParse(files) && DistinctPaths(files)
      requires paths == PathsOf(files) && fragments == FragmentsIn(files)
      modifies this`files
      ensures files == FilesLeft(old(files), selected)
    {
      hide *;
      ghost var before := files;
      ConsumedStart(before, selected);
      for i := 0 to |fragments|
        invariant |fragments| == |before| && AllParse(before)
        invariant files == Consumed(before, i, selected)
      {
        ConsumeStep(before, i, selected);
        if Touches(fragments[i], selected) {
          var left := TargetsLeft(fragments[i].targets, selected);
          if left == [] {
            Unlink(paths[i]);
          } else {
            Write(paths[i], Parsed(FragmentJson(fragments[i].(targets := left))));
          }
        }
      }
      ConsumedEnd(before, selected);
    }
  }

  /** The directory after the first `i` files have been dealt with. */
  function Consumed(files: seq<File>, i: nat, selected: set<Target>): seq<File>
    requires AllParse(files) && i <= |files|
  {
    assert AllParse(files[..i]);
    FilesLeft(files[..i], selected) + files[i..]
  }

  lemma ConsumedStart(files: seq<File>, selected: set<Target>)
    requires AllParse(files)
    ensures Consumed(files, 0, selected) == files && |FragmentsIn(files)| == |files|
  {
    assert files[..0] == [] && files[0..] == files;
  }

  lemma ConsumedEnd(files: seq<File>, selected: set<Target>)
    requires AllParse(files)
    ensures Consumed(files, |files|, selected) == FilesLeft(files, selected)
  {
    assert files[..|files|] == files;
  }

  /** One file more: nothing, a deletion or a rewriting at its path. */
  lemma ConsumeStep(files: seq<File>, i: nat, selected: set<Target>)
    requires AllParse(files) && DistinctPaths(files) && i < |files|
    ensures i < |PathsOf(files)| && i < |FragmentsIn(files)|
    ensures var f, now, next, path := FragmentsIn(files)[i], Consumed(files, i, selected), Consumed(files, i + 1, selected), PathsOf(files)[i];
            var left := TargetsLeft(f.targets, selected);
            next == if !Touches(f, selected) then now
                    else if left == [] then Without(now, path)
                    else Rewritten(now, path, Parsed(FragmentJson(f.(targets := left))))
  {
    hide Parses, FragmentIn, FragmentJson, FilesLeft, Without, Rewritten, TargetsLeft, Touches;
    var done, file, rest := FilesLeft(files[..i], selected), files[i], files[i + 1..];
    var f := FragmentIn(file);
    FilesLeftOneMore(files, i, selected);
    assert files[i..] == [file] + rest;
    PathIsNew(files, i, selected);
    WithoutHere(done, file, rest);
    RewrittenHere(done, file, rest, Parsed(FragmentJson(f.(targets := TargetsLeft(f.targets, selected)))));
    ConcatAssoc(done, FileLeft(file, selected), rest);
  }

  lemma PathIsNew(files: seq<File>, i: nat, selected: set<Target>)
    requires i < |files| && AllParse(files[..i]) && DistinctPaths(files)
    ensures forall k :: 0 <= k < |FilesLeft(files[..i], selected)| ==>
              FilesLeft(files[..i], selected)[k].path != files[i].path
  {
    hide Parses, FilesLeft;
    var done := FilesLeft(files[..i], selected);
    forall k | 0 <= k < |done| ensures done[k].path != files[i].path {
      FilesLeftPaths(files[..i], selected, done[k].path);
      var j :| 0 <= j < i && files[..i][j].path == done[k].path;
      assert files[j].path == done[k].path;
    }
  }

  function Without(files: seq<File>, path: string): seq<File> {
    if files == [] then []
    else if files[0].path == path then files[1..]
    else [files[0]] + Without(files[1..], path)
  }

  function Rewritten(files: seq<File>, path: string, content: Content): seq<File> {
    if files == [] then [File(path, content)]
    else if files[0].path == path then [File(path, content)] + files[1..]
    else [files[0]] + Rewritten(files[1..], path, content)
  }

  lemma {:induction false} WithoutHere(done: seq<File>, file: File, rest: seq<File>)
    requires forall k :: 0 <= k < |done| ==> done[k].path != file.path
    ensures Without(done + ([file] + rest), file.path) == done + rest
  {
    var files := done + ([file] + rest);
    if done == [] {
      assert files == [file] + rest && files[1..] == rest && done + rest == rest;
    } else {
      assert files[1..] == done[1..] + ([file] + rest);
      WithoutHere(done[1..], file, rest);
      assert done + rest == [done[0]] + (done[1..] + rest);
    }
  }

  lemma {:induction false} RewrittenHere(done: seq<File>, file: File, rest: seq<File>, content: Content)
    requires forall k :: 0 <= k < |done| ==> done[k].path != file.path
    ensures Rewritten(done + ([file] + rest), file.path, content) == done + ([File(file.path, content)] + rest)
  {
    var files := done + ([file] + rest);
    if done == [] {
      assert files == [file] + rest && files[1..] == rest;
    } else {
      assert files[1..] == done[1..] + ([file] + rest);
      RewrittenHere(done[1..], file, rest, content);
      assert done + ([File(file.path, content)] + rest) == [done[0]] + (done[1..] + ([File(file.path, content)] + rest));
    }
  }

  lemma FilesLeftCons(file: File, rest: seq<File>, selected: set<Target>)
    requires Parses(file) && AllParse(rest)
    ensures AllParse([file] + rest)
    ensures FilesLeft([file] + rest, selected) == FileLeft(file, selected) + FilesLeft(rest, selected)
  {
    hide Parses, FileLeft;
    assert ([file] + rest)[1..] == rest;
  }

  lemma {:induction false} FilesLeftConcat(a: seq<File>, b: seq<File>, selected: set<Target>)
    requires AllParse(a) && AllParse(b)
    ensures AllParse(a + b) && FilesLeft(a + b, selected) == FilesLeft(a, selected) + FilesLeft(b, selected)
  {
    hide Parses, FileLeft, FilesLeft;
    if a == [] {
      assert a + b == b;
      NoFilesLeft(selected);
    } else {
      FilesLeftConcat(a[1..], b, selected);
      assert a == [a[0]] + a[1..] && a + b == [a[0]] + (a[1..] + b);
      FilesLeftCons(a[0], a[1..], selected);
      FilesLeftCons(a[0], a[1..] + b, selected);
      ConcatAssoc(FileLeft(a[0], selected), FilesLeft(a[1..], selected), FilesLeft(b, selected));
    }
  }

  lemma NoFilesLeft(selected: set<Target>)
    ensures FilesLeft([], selected) == []
  {
  }

  lemma FilesLeftOneMore(files: seq<File>, i: nat, selected: set<Target>)
    requires i < |files| && AllParse(files)
    ensures AllParse(files[..i]) && AllParse(files[..i + 1])
    ensures FilesLeft(files[..i + 1], selected) == FilesLeft(files[..i], selected) + FileLeft(files[i], selected)
  {
    hide Parses, FileLeft, FilesLeft;
    assert files[..i + 1] == files[..i] + [files[i]];
    FilesLeftConcat(files[..i], [files[i]], selected);
    assert [files[i]] == [files[i]] + [];
    FilesLeftCons(files[i], [], selected);
    NoFilesLeft(selected);
  }

  predicate HasPath(files: seq<File>, path: string) {
    exists j :: 0 <= j < |files| && files[j].path == path
  }

  lemma FileLeftPath(file: File, selected: set<Target>)
    requires Parses(file)
    ensures forall k :: 0 <= k < |FileLeft(file, selected)| ==> FileLeft(file, selected)[k].path == file.path
  {
    hide Parses, FragmentIn, FragmentJson, TargetsLeft, Touches;
  }

  lemma {:induction false} FilesLeftPaths(files: seq<File>, selected: set<Target>, path: string)
    requires AllParse(files) && HasPath(FilesLeft(files, selected), path)
    ensures HasPath(files, path)
  {
    hide Parses, FileLeft, FilesLeft;
    if files == [] {
      NoFilesLeft(selected);
    } else {
      var first, tail := files[0], files[1..];
      assert files == [first] + tail;
      FilesLeftCons(first, tail, selected);
      FileLeftPath(first, selected);
      var k :| 0 <= k < |FilesLeft(files, selected)| && FilesLeft(files, selected)[k].path == path;
      var n := |FileLeft(first, selected)|;
      if k >= n {
        assert FilesLeft(tail, selected)[k - n].path == path;
        FilesLeftPaths(tail, selected, path);
        var j :| 0 <= j < |tail| && tail[j].path == path;
        assert files[j + 1].path == path;
      } else {
        assert files[0].path == path;
      }
    }
  }

  lemma RunUnfold(repo: Repo, o: Options)
    requires Complete(repo.changelogs) && ValidOptions(o) && AllParse(repo.files)
    requires Touching(FragmentsIn(repo.files), SetOf(o.targets)) != []
    ensures Distinct(o.targets)
    ensures var selected := SetOf(o.targets);
            var consumed := Touching(FragmentsIn(repo.files), selected);
            var written := WriteChangelogs(repo.changelogs, o.targets, o.version, o.date, consumed);
            Run(repo, o) ==
              if o.dryRun then (repo, if written.1 then Done else MissingUnreleased)
              else if !written.1 then (repo.(changelogs := written.0), MissingUnreleased)
              else (Repo(written.0, FilesLeft(repo.files, selected)), Done)
  {
  }
}
