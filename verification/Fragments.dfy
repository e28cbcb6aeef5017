/** Change fragments: validation of the JSON files, rewriting them, and the Markdown bullets
    they turn into. */
module Fragments {
  import opened JsText

  datatype Target = Spec | Rust | Kotlin | TypeScript | Swift | Go | Dotnet

  const TARGETS: seq<Target> := [Spec, Rust, Kotlin, TypeScript, Swift, Go, Dotnet]

  function TargetName(t: Target): string {
    match t
    case Spec => "spec"
    case Rust => "rust"
    case Kotlin => "kotlin"
    case TypeScript => "typescript"
    case Swift => "swift"
    case Go => "go"
    case Dotnet => "dotnet"
  }

  function TargetNamed(name: string): (t: Option<Target>)
    ensures t.Some? ==> TargetName(t.value) == name
    ensures t.None? ==> forall u :: TargetName(u) != name
  {
    if name == "spec" then Some(Spec)
    else if name == "rust" then Some(Rust)
    else if name == "kotlin" then Some(Kotlin)
    else if name == "typescript" then Some(TypeScript)
    else if name == "swift" then Some(Swift)
    else if name == "go" then Some(Go)
    else if name == "dotnet" then Some(Dotnet)
    else None
  }

  datatype ChangeType = Added | Changed | Deprecated | Removed | Fixed | Security

  const CHANGE_TYPES: seq<ChangeType> := [Added, Changed, Deprecated, Removed, Fixed, Security]

  function TypeName(c: ChangeType): string {
    match c
    case Added => "added"
    case Changed => "changed"
    case Deprecated => "deprecated"
    case Removed => "removed"
    case Fixed => "fixed"
    case Security => "security"
  }

  function TypeNamed(name: string): (c: Option<ChangeType>)
    ensures c.Some? ==> TypeName(c.value) == name
    ensures c.None? ==> forall d :: TypeName(d) != name
  {
    if name == "added" then Some(Added)
    else if name == "changed" then Some(Changed)
    else if name == "deprecated" then Some(Deprecated)
    else if name == "removed" then Some(Removed)
    else if name == "fixed" then Some(Fixed)
    else if name == "security" then Some(Security)
    else None
  }

  function TypeHeading(c: ChangeType): string {
    match c
    case Added => "### Added"
    case Changed => "### Changed"
    case Deprecated => "### Deprecated"
    case Removed => "### Removed"
    case Fixed => "### Fixed"
    case Security => "### Security"
  }

  datatype Fragment = Fragment(kind: ChangeType, message: string, targets: seq<Target>, issues: seq<nat>)

  // ---- JSON values and validation errors

  /** A value as `JSON.parse` delivers it: a number is a double, so `JInteger` holds the value of
      the double and not of the digits in the file, which may differ above 2^53.  The members of
      an object have distinct keys, in key order. */
  datatype Json =
    | JNull
    | JBool(flag: bool)
    | JInteger(n: int)
    | JFraction
    | JString(text: string)
    | JArray(entries: seq<Json>)
    | JObject(members: seq<Member>)

  datatype Member = Member(key: string, value: Json)

  /** What a fragment file holds: text that `JSON.parse` rejects, or a value. */
  datatype Content = Unparsable | Parsed(value: Json)

  datatype Problem =
    | InvalidJson
    | NotAnObject
    | UnknownField(key: string)
    | BadType
    | MessageMissing
    | MessagePadded
    | MessageBulleted
    | MessageMultiline
    | TargetsShape
    | InvalidTarget(entry: Json)
    | DuplicateTarget(target: Target)
    | IssuesShape
    | InvalidIssue(entry: Json)
    | DuplicateIssue(issue: nat)

  predicate Distinct<T(==)>(s: seq<T>) {
    forall i, j :: 0 <= i < j < |s| ==> s[i] != s[j]
  }

  function Field(members: seq<Member>, key: string): Option<Json> {
    if members == [] then None
    else if members[0].key == key then Some(members[0].value)
    else Field(members[1..], key)
  }

  /** The shared list of errors that the validators append to. */
  class ErrorLog {
    var errors: seq<Problem>

    constructor ()
      ensures errors == []
    {
      errors := [];
    }
  }

  // ---- targets

  function AsTarget(entry: Json): Option<Target> {
    if entry.JString? then TargetNamed(entry.text) else None
  }

  /** The targets kept from the entries, and the problems found in them, when `seen` has been
      accepted already. */
  function KeptTargets(entries: seq<Json>, seen: set<Target>): seq<Target> {
    if entries == [] then []
    else
      match AsTarget(entries[0])
      case Some(t) =>
        if t in seen then KeptTargets(entries[1..], seen) else [t] + KeptTargets(entries[1..], seen + {t})
      case None => KeptTargets(entries[1..], seen)
  }

  function TargetProblems(entries: seq<Json>, seen: set<Target>): seq<Problem> {
    if entries == [] then []
    else
      match AsTarget(entries[0])
      case Some(t) =>
        if t in seen then [DuplicateTarget(t)] + TargetProblems(entries[1..], seen)
        else TargetProblems(entries[1..], seen + {t})
      case None => [InvalidTarget(entries[0])] + TargetProblems(entries[1..], seen)
  }

  function TargetsOf(value: Option<Json>): (seq<Target>, seq<Problem>) {
    match value
    case None => (TARGETS, [])
    case Some(v) =>
      if !v.JArray? || v.entries == [] then ([], [TargetsShape])
      else (KeptTargets(v.entries, {}), TargetProblems(v.entries, {}))
  }

  method ValidateTargets(value: Option<Json>, log: ErrorLog) returns (targets: seq<Target>)
    modifies log
    ensures targets == TargetsOf(value).0
    ensures log.errors == old(log.errors) + TargetsOf(value).1
  {
    if value.None? {
      return TARGETS;
    }
    if !value.value.JArray? || value.value.entries == [] {
      log.errors := log.errors + [TargetsShape];
      return [];
    }
    var entries := value.value.entries;
    targets := [];
    var seen: set<Target> := {};
    for i := 0 to |entries|
      invariant targets + KeptTargets(entries[i..], seen) == KeptTargets(entries, {})
      invariant log.errors + TargetProblems(entries[i..], seen) == old(log.errors) + TargetProblems(entries, {})
    {
      assert entries[i..][1..] == entries[i + 1..];
      var t := AsTarget(entries[i]);
      if t.None? {
        log.errors := log.errors + [InvalidTarget(entries[i])];
      } else if t.value in seen {
        log.errors := log.errors + [DuplicateTarget(t.value)];
      } else {
        seen := seen + {t.value};
        targets := targets + [t.value];
      }
    }
  }

  /** Nothing is reported exactly for entries that name distinct targets not seen before, and
      then every entry is kept. */
  lemma {:induction false} CleanTargets(entries: seq<Json>, seen: set<Target>)
    ensures TargetProblems(entries, seen) == []
       <==> && (forall i :: 0 <= i < |entries| ==> AsTarget(entries[i]).Some? && AsTarget(entries[i]).value !in seen)
            && (forall i, j :: 0 <= i < j < |entries| ==> AsTarget(entries[i]) != AsTarget(entries[j]))
    ensures TargetProblems(entries, seen) == [] ==>
              |KeptTargets(entries, seen)| == |entries|
              && forall i :: 0 <= i < |entries| ==> Some(KeptTargets(entries, seen)[i]) == AsTarget(entries[i])
  {
    if entries != [] {
      var rest := entries[1..];
      var t := AsTarget(entries[0]);
      if t.Some? && t.value !in seen {
        CleanTargets(rest, seen + {t.value});
        assert forall i :: 0 < i < |entries| ==> entries[i] == rest[i - 1];
        assert forall i :: 0 <= i < |rest| ==> rest[i] == entries[i + 1];
      }
    }
  }

  // ---- issues

  function KeptIssues(entries: seq<Json>, seen: set<nat>): seq<nat> {
    if entries == [] then []
    else if !entries[0].JInteger? || entries[0].n <= 0 || entries[0].n in seen then KeptIssues(entries[1..], seen)
    else [entries[0].n] + KeptIssues(entries[1..], seen + {entries[0].n})
  }

  function IssueProblems(entries: seq<Json>, seen: set<nat>): seq<Problem> {
    if entries == [] then []
    else if !entries[0].JInteger? || entries[0].n <= 0 then
      [InvalidIssue(entries[0])] + IssueProblems(entries[1..], seen)
    else if entries[0].n in seen then [DuplicateIssue(entries[0].n)] + IssueProblems(entries[1..], seen)
    else IssueProblems(entries[1..], seen + {entries[0].n})
  }

  function IssuesOf(value: Option<Json>): (seq<nat>, seq<Problem>) {
    match value
    case None => ([], [])
    case Some(v) =>
      if !v.JArray? then ([], [IssuesShape])
      else (KeptIssues(v.entries, {}), IssueProblems(v.entries, {}))
  }

  method ValidateIssues(value: Option<Json>, log: ErrorLog) returns (issues: seq<nat>)
    modifies log
    ensures issues == IssuesOf(value).0
    ensures log.errors == old(log.errors) + IssuesOf(value).1
  {
    if value.None? {
      return [];
    }
    if !value.value.JArray? {
      log.errors := log.errors + [IssuesShape];
      return [];
    }
    var entries := value.value.entries;
    issues := [];
    var seen: set<nat> := {};
    for i := 0 to |entries|
      invariant issues + KeptIssues(entries[i..], seen) == KeptIssues(entries, {})
      invariant log.errors + IssueProblems(entries[i..], seen) == old(log.errors) + IssueProblems(entries, {})
    {
      assert entries[i..][1..] == entries[i + 1..];
      var entry := entries[i];
      if !entry.JInteger? || entry.n <= 0 {
        log.errors := log.errors + [InvalidIssue(entry)];
      } else if entry.n in seen {
        log.errors := log.errors + [DuplicateIssue(entry.n)];
      } else {
        seen := seen + {entry.n};
        issues := issues + [entry.n];
      }
    }
  }

  predicate IsIssue(entry: Json) {
    entry.JInteger? && entry.n > 0
  }

  lemma {:induction false} CleanIssues(entries: seq<Json>, seen: set<nat>)
    ensures IssueProblems(entries, seen) == []
       <==> && (forall i :: 0 <= i < |entries| ==> IsIssue(entries[i]) && entries[i].n !in seen)
            && Distinct(entries)
    ensures IssueProblems(entries, seen) == [] ==>
              |KeptIssues(entries, seen)| == |entries|
              && forall i :: 0 <= i < |entries| ==> JInteger(KeptIssues(entries, seen)[i]) == entries[i]
  {
    if entries != [] {
      var rest := entries[1..];
      if IsIssue(entries[0]) && entries[0].n !in seen {
        CleanIssues(rest, seen + {entries[0].n});
        assert forall i :: 0 < i < |entries| ==> entries[i] == rest[i - 1];
        assert forall i :: 0 <= i < |rest| ==> rest[i] == entries[i + 1];
      }
    }
  }

  // ---- whole fragments

  const FRAGMENT_KEYS: set<string> := {"type", "message", "targets", "issues"}

  function UnknownFields(members: seq<Member>): seq<Problem> {
    if members == [] then []
    else if members[0].key in FRAGMENT_KEYS then UnknownFields(members[1..])
    else [UnknownField(members[0].key)] + UnknownFields(members[1..])
  }

  function TypeProblems(value: Option<Json>): seq<Problem> {
    if value.Some? && value.value.JString? && TypeNamed(value.value.text).Some? then [] else [BadType]
  }

  function MessageProblems(value: Option<Json>): seq<Problem> {
    if value.None? || !value.value.JString? || Trim(value.value.text) == "" then [MessageMissing]
    else
      var text := value.value.text;
      if text != Trim(text) then [MessagePadded]
      else if "- " <= text then [MessageBulleted]
      else if '\r' in text || '\n' in text then [MessageMultiline]
      else []
  }

  function FragmentProblems(content: Content): seq<Problem> {
    match content
    case Unparsable => [InvalidJson]
    case Parsed(json) =>
      if !json.JObject? then [NotAnObject]
      else
        UnknownFields(json.members) + TypeProblems(Field(json.members, "type"))
        + MessageProblems(Field(json.members, "message"))
        + TargetsOf(Field(json.members, "targets")).1 + IssuesOf(Field(json.members, "issues")).1
  }

  /** The fragment in a file, when the file has no problem. */
  function FragmentOf(content: Content): Option<Fragment> {
    if FragmentProblems(content) != [] then None
    else
      var members := content.value.members;
      assert TypeProblems(Field(members, "type")) == [] && MessageProblems(Field(members, "message")) == [];
      Some(Fragment(TypeNamed(Field(members, "type").value.text).value,
                    Field(members, "message").value.text,
                    TargetsOf(Field(members, "targets")).0,
                    IssuesOf(Field(members, "issues")).0))
  }

  method ParseChangeFragment(content: Content) returns (fragment: Option<Fragment>, errors: seq<Problem>)
    ensures errors == FragmentProblems(content) && fragment == FragmentOf(content)
  {
    if content.Unparsable? {
      return None, [InvalidJson];
    }
    if !content.value.JObject? {
      return None, [NotAnObject];
    }
    hide TypeProblems, MessageProblems, TargetsOf, IssuesOf, Field;
    var members := content.value.members;
    var log := new ErrorLog();
    for i := 0 to |members|
      invariant log.errors + UnknownFields(members[i..]) == UnknownFields(members)
    {
      assert members[i..][1..] == members[i + 1..];
      if members[i].key !in FRAGMENT_KEYS {
        log.errors := log.errors + [UnknownField(members[i].key)];
      }
    }
    assert log.errors == UnknownFields(members);
    log.errors := log.errors + TypeProblems(Field(members, "type"));
    log.errors := log.errors + MessageProblems(Field(members, "message"));
    var targets := ValidateTargets(Field(members, "targets"), log);
    var issues := ValidateIssues(Field(members, "issues"), log);
    errors := log.errors;
    if errors != [] {
      return None, errors;
    }
    assert FragmentOf(content).Some?;
    fragment := Some(Fragment(TypeNamed(Field(members, "type").value.text).value,
                              Field(members, "message").value.text, targets, issues));
  }

  /** One trimmed, non-empty line that does not bring its own bullet. */
  predicate ValidMessage(text: string) {
    text != "" && Trimmed(text) && !("- " <= text) && '\r' !in text && '\n' !in text
  }

  /** What every accepted fragment looks like. */
  predicate ValidFragment(f: Fragment) {
    && ValidMessage(f.message)
    && f.targets != [] && Distinct(f.targets)
    && Distinct(f.issues) && forall i :: 0 <= i < |f.issues| ==> f.issues[i] > 0
  }

  lemma MessageExactly(text: string)
    ensures MessageProblems(Some(JString(text))) == [] <==> ValidMessage(text)
  {
    if Trimmed(text) {
      TrimOfTrimmed(text);
    }
  }

  lemma AcceptedIsValid(content: Content)
    requires FragmentOf(content).Some?
    ensures ValidFragment(FragmentOf(content).value)
  {
    hide Field, UnknownFields, TypeProblems, ValidMessage, Trim, Trimmed;
    var members := content.value.members;
    assert MessageProblems(Field(members, "message")) == [];
    MessageExactly(Field(members, "message").value.text);
    var targets, issues := Field(members, "targets"), Field(members, "issues");
    if targets.Some? {
      CleanTargets(targets.value.entries, {});
    }
    if issues.Some? {
      CleanIssues(issues.value.entries, {});
    }
  }

  /** The object that the remaining targets of a fragment are written back as. */
  function FragmentJson(f: Fragment): Json {
    JObject([Member("type", JString(TypeName(f.kind))),
             Member("message", JString(f.message)),
             Member("targets", JArray(TargetEntries(f.targets)))]
            + if f.issues == [] then []
              else [Member("issues", JArray(IssueEntries(f.issues)))])
  }

  function TargetEntries(targets: seq<Target>): seq<Json> {
    seq(|targets|, i requires 0 <= i < |targets| => JString(TargetName(targets[i])))
  }

  function IssueEntries(issues: seq<nat>): seq<Json> {
    seq(|issues|, i requires 0 <= i < |issues| => JInteger(issues[i]))
  }

  lemma TargetsReadBack(targets: seq<Target>)
    requires targets != [] && Distinct(targets)
    ensures TargetsOf(Some(JArray(TargetEntries(targets)))) == (targets, [])
  {
    var entries := TargetEntries(targets);
    forall i | 0 <= i < |entries| ensures AsTarget(entries[i]) == Some(targets[i]) {
      assert TargetName(targets[i]) == entries[i].text;
    }
    CleanTargets(entries, {});
    assert KeptTargets(entries, {}) == targets;
  }

  lemma IssuesReadBack(issues: seq<nat>)
    requires Distinct(issues) && forall i :: 0 <= i < |issues| ==> issues[i] > 0
    ensures IssuesOf(Some(JArray(IssueEntries(issues)))) == (issues, [])
  {
    var entries := IssueEntries(issues);
    forall i, j | 0 <= i < j < |entries| ensures entries[i] != entries[j] {
      assert issues[i] != issues[j];
    }
    CleanIssues(entries, {});
    assert KeptIssues(entries, {}) == issues;
  }

  /** Reading back a written fragment: a valid one is accepted unchanged. */
  lemma WriteThenParse(f: Fragment)
    requires ValidFragment(f)
    ensures FragmentOf(Parsed(FragmentJson(f))) == Some(f)
  {
    hide Field, UnknownFields, TargetsOf, IssuesOf, MessageProblems, ValidMessage;
    WrittenFields(f);
    MessageExactly(f.message);
    TargetsReadBack(f.targets);
    if f.issues == [] {
      NoIssues();
    } else {
      IssuesReadBack(f.issues);
    }
  }

  lemma NoIssues()
    ensures IssuesOf(None) == ([], [])
  {
  }

  lemma WrittenFields(f: Fragment)
    ensures var m := FragmentJson(f).members;
            && UnknownFields(m) == []
            && Field(m, "type") == Some(m[0].value) && Field(m, "message") == Some(m[1].value)
            && Field(m, "targets") == Some(m[2].value)
            && Field(m, "issues") == if f.issues == [] then None else Some(m[3].value)
  {
    var m := FragmentJson(f).members;
    var m1, m2 := m[1..], m[1..][1..];
    var m3 := m2[1..];
    assert m1[0] == m[1] && m2[0] == m[2];
    assert f.issues != [] ==> m3 == [m[3]] && m3[1..] == [];
    assert f.issues == [] ==> m3 == [];
    assert UnknownFields(m3) == [];
    assert UnknownFields(m2) == [];
    assert Field(m2, "targets") == Some(m[2].value);
    assert Field(m3, "issues") == if f.issues == [] then None else Some(m[3].value);
    assert Field(m2, "issues") == Field(m3, "issues");
    assert Field(m1, "issues") == Field(m2, "issues");
  }

  // ---- exactly what is accepted

  predicate TargetsGiven(value: Option<Json>, targets: seq<Target>) {
    match value
    case None => targets == TARGETS
    case Some(v) => v == JArray(TargetEntries(targets)) && targets != [] && Distinct(targets)
  }

  predicate IssuesGiven(value: Option<Json>, issues: seq<nat>) {
    match value
    case None => issues == []
    case Some(v) => v == JArray(IssueEntries(issues)) && Distinct(issues) && forall i :: 0 <= i < |issues| ==> issues[i] > 0
  }

  lemma TargetsExactly(value: Option<Json>, targets: seq<Target>)
    ensures TargetsOf(value) == (targets, []) <==> TargetsGiven(value, targets)
  {
    if value.Some? && value.value.JArray? && value.value.entries != [] {
      var entries := value.value.entries;
      CleanTargets(entries, {});
      if TargetsOf(value) == (targets, []) {
        forall i | 0 <= i < |entries| ensures entries[i] == TargetEntries(targets)[i] {
          assert AsTarget(entries[i]) == Some(targets[i]);
        }
        assert entries == TargetEntries(targets);
      }
    }
    if value.Some? && TargetsGiven(value, targets) {
      TargetsReadBack(targets);
    }
  }

  lemma IssuesExactly(value: Option<Json>, issues: seq<nat>)
    ensures IssuesOf(value) == (issues, []) <==> IssuesGiven(value, issues)
  {
    if value.Some? && value.value.JArray? {
      var entries := value.value.entries;
      CleanIssues(entries, {});
      if IssuesOf(value) == (issues, []) {
        assert forall i :: 0 <= i < |entries| ==> entries[i] == IssueEntries(issues)[i];
        assert entries == IssueEntries(issues);
        forall i, j | 0 <= i < j < |issues| ensures issues[i] != issues[j] {
          assert entries[i] != entries[j];
        }
      }
    }
    if value.Some? && IssuesGiven(value, issues) {
      IssuesReadBack(issues);
    }
  }

  lemma {:induction false} KnownFieldsExactly(members: seq<Member>)
    ensures UnknownFields(members) == []
       <==> forall i :: 0 <= i < |members| ==> members[i].key in ["type", "message", "targets", "issues"]
  {
    if members != [] {
      KnownFieldsExactly(members[1..]);
      KnownKey(members[0].key);
      hide FRAGMENT_KEYS;
      assert forall i :: 0 < i < |members| ==> members[i] == members[1..][i - 1];
      assert forall i :: 0 <= i < |members| - 1 ==> members[1..][i] == members[i + 1];
    }
  }

  lemma KnownKey(key: string)
    ensures key in FRAGMENT_KEYS <==> key in ["type", "message", "targets", "issues"]
  {
  }

  lemma TypeExactly(value: Option<Json>, kind: ChangeType)
    ensures TypeProblems(value) == [] && TypeNamed(value.value.text) == Some(kind) <==> value == Some(JString(TypeName(kind)))
  {
    assert TypeNamed(TypeName(kind)) == Some(kind);
  }

  /** A file is accepted as a fragment exactly when it is an object with no other members than
      these four, and each of them says what the fragment has; without `targets` a fragment names
      all targets, and without `issues` none. */
  lemma AcceptedExactly(content: Content, f: Fragment)
    ensures FragmentOf(content) == Some(f)
       <==> && content.Parsed? && content.value.JObject?
            && (var members := content.value.members;
                && (forall i :: 0 <= i < |members| ==> members[i].key in ["type", "message", "targets", "issues"])
                && Field(members, "type") == Some(JString(TypeName(f.kind)))
                && Field(members, "message") == Some(JString(f.message)) && ValidMessage(f.message)
                && TargetsGiven(Field(members, "targets"), f.targets)
                && IssuesGiven(Field(members, "issues"), f.issues))
  {
    hide Field, UnknownFields, TypeProblems, MessageProblems, ValidMessage, TargetsOf, IssuesOf, TargetsGiven, IssuesGiven, TypeName;
    if content.Parsed? && content.value.JObject? {
      var members := content.value.members;
      var message := Field(members, "message");
      KnownFieldsExactly(members);
      TypeExactly(Field(members, "type"), f.kind);
      MessageGiven(message);
      MessageExactly(f.message);
      TargetsExactly(Field(members, "targets"), f.targets);
      IssuesExactly(Field(members, "issues"), f.issues);
      TypeGiven(Field(members, "type"));
    }
  }

  lemma MessageGiven(value: Option<Json>)
    ensures MessageProblems(value) == [] ==> value.Some? && value.value.JString?
  {
    hide Trim;
  }

  lemma TypeGiven(value: Option<Json>)
    ensures TypeProblems(value) == [] ==> value.Some? && value.value.JString? && TypeNamed(value.value.text).Some?
  {
    hide TypeNamed;
  }

  lemma TargetNames()
    ensures |TARGETS| == 7
    ensures TargetEntries(TARGETS)
         == [JString("spec"), JString("rust"), JString("kotlin"), JString("typescript"), JString("swift"), JString("go"), JString("dotnet")]
  {
  }
}
