/** The bullets of a release section: the fragments of one target, grouped by change type. */
module ChangeSections {
  import opened JsText
  import opened Decimal
  import opened Markdown
  import opened Fragments

  function IssueList(issues: seq<nat>): string {
    if issues == [] then ""
    else if |issues| == 1 then "#" + Numeral(issues[0])
    else "#" + Numeral(issues[0]) + ", " + IssueList(issues[1..])
  }

  function IssueSuffix(issues: seq<nat>): string {
    if issues == [] then "" else " (" + IssueList(issues) + ")"
  }

  function Bullet(f: Fragment): string {
    "- " + f.message + IssueSuffix(f.issues)
  }

  predicate IsBullet(line: string) {
    "- " <= line
  }

  predicate IsTypeHeading(line: string) {
    "### " <= line
  }

  // ---- the order of the bullets

  /** The fragments of one type that name the target, in their given order. */
  function Group(fragments: seq<Fragment>, target: Target, kind: ChangeType): seq<Fragment> {
    if fragments == [] then []
    else
      (if fragments[0].kind == kind && target in fragments[0].targets then [fragments[0]] else [])
      + Group(fragments[1..], target, kind)
  }

  function Grouped(types: seq<ChangeType>, fragments: seq<Fragment>, target: Target): seq<Fragment> {
    if types == [] then [] else Group(fragments, target, types[0]) + Grouped(types[1..], fragments, target)
  }

  /** The fragments naming the target, in the order their bullets are printed. */
  function Ordered(fragments: seq<Fragment>, target: Target): seq<Fragment> {
    Grouped(CHANGE_TYPES, fragments, target)
  }

  function Rank(kind: ChangeType): nat {
    match kind
    case Added => 0
    case Changed => 1
    case Deprecated => 2
    case Removed => 3
    case Fixed => 4
    case Security => 5
  }

  lemma {:induction false} GroupMembers(fragments: seq<Fragment>, target: Target, kind: ChangeType)
    ensures forall f :: f in Group(fragments, target, kind) ==> f.kind == kind && target in f.targets && f in fragments
  {
    if fragments != [] {
      GroupMembers(fragments[1..], target, kind);
    }
  }

  lemma {:induction false} GroupConcat(a: seq<Fragment>, b: seq<Fragment>, target: Target, kind: ChangeType)
    ensures Group(a + b, target, kind) == Group(a, target, kind) + Group(b, target, kind)
  {
    if a == [] {
      assert a + b == b;
    } else {
      var first := if a[0].kind == kind && target in a[0].targets then [a[0]] else [];
      GroupConcat(a[1..], b, target, kind);
      assert (a + b)[1..] == a[1..] + b;
      assert Group(a, target, kind) == first + Group(a[1..], target, kind);
      assert Group(a + b, target, kind) == first + Group(a[1..] + b, target, kind);
      hide Group;
      ConcatAssoc(first, Group(a[1..], target, kind), Group(b, target, kind));
    }
  }

  lemma {:induction false} GroupOfGroup(fragments: seq<Fragment>, target: Target, kind: ChangeType, inner: ChangeType)
    ensures Group(Group(fragments, target, inner), target, kind)
         == if kind == inner then Group(fragments, target, kind) else []
  {
    if fragments != [] {
      var first := if fragments[0].kind == inner && target in fragments[0].targets then [fragments[0]] else [];
      GroupOfGroup(fragments[1..], target, kind, inner);
      GroupConcat(first, Group(fragments[1..], target, inner), target, kind);
      assert first != [] ==> first[1..] == [];
    }
  }

  lemma {:induction false} GroupOfGrouped(types: seq<ChangeType>, fragments: seq<Fragment>, target: Target, kind: ChangeType)
    requires Distinct(types)
    ensures Group(Grouped(types, fragments, target), target, kind)
         == if kind in types then Group(fragments, target, kind) else []
  {
    if types != [] {
      GroupOfGrouped(types[1..], fragments, target, kind);
      GroupOfGroup(fragments, target, kind, types[0]);
      GroupConcat(Group(fragments, target, types[0]), Grouped(types[1..], fragments, target), target, kind);
      assert types == [types[0]] + types[1..];
      assert kind == types[0] ==> kind !in types[1..];
    }
  }

  /** Every type is in the list of types, so no fragment is left out. */
  lemma AllTypesListed(kind: ChangeType)
    ensures kind in CHANGE_TYPES && Distinct(CHANGE_TYPES)
  {
    assert CHANGE_TYPES[Rank(kind)] == kind;
    forall i, j | 0 <= i < j < |CHANGE_TYPES| ensures CHANGE_TYPES[i] != CHANGE_TYPES[j] {
      assert Rank(CHANGE_TYPES[i]) == i && Rank(CHANGE_TYPES[j]) == j;
    }
  }

  /** The order is a stable sort by type: ranks never decrease, and within a type the
      fragments naming the target appear as they were given, each once. */
  lemma OrderedIsStableSort(fragments: seq<Fragment>, target: Target)
    ensures forall i, j :: 0 <= i < j < |Ordered(fragments, target)| ==>
              Rank(Ordered(fragments, target)[i].kind) <= Rank(Ordered(fragments, target)[j].kind)
    ensures forall kind :: Group(Ordered(fragments, target), target, kind) == Group(fragments, target, kind)
    ensures forall f :: f in Ordered(fragments, target) ==> target in f.targets
  {
    assert CHANGE_TYPES[0..] == CHANGE_TYPES;
    GroupedSorted(0, fragments, target);
    forall kind ensures Group(Ordered(fragments, target), target, kind) == Group(fragments, target, kind) {
      AllTypesListed(kind);
      GroupOfGrouped(CHANGE_TYPES, fragments, target, kind);
    }
  }

  lemma {:induction false} GroupedSorted(from: nat, fragments: seq<Fragment>, target: Target)
    requires from <= |CHANGE_TYPES|
    ensures var out := Grouped(CHANGE_TYPES[from..], fragments, target);
            && (forall f :: f in out ==> Rank(f.kind) >= from && target in f.targets)
            && forall i, j :: 0 <= i < j < |out| ==> Rank(out[i].kind) <= Rank(out[j].kind)
    decreases |CHANGE_TYPES| - from
  {
    if from < |CHANGE_TYPES| {
      var kind := CHANGE_TYPES[from];
      AllTypesListed(kind);
      assert CHANGE_TYPES[from..][1..] == CHANGE_TYPES[from + 1..];
      GroupedSorted(from + 1, fragments, target);
      var front, rest := Group(fragments, target, kind), Grouped(CHANGE_TYPES[from + 1..], fragments, target);
      GroupMembers(fragments, target, kind);
      assert Rank(kind) == from;
      var out: seq<Fragment> := front + rest;
      forall i, j | 0 <= i < j < |out| ensures Rank(out[i].kind) <= Rank(out[j].kind) {
        assert i < |front| ==> out[i] in front;
        assert j < |front| ==> out[j] in front;
        assert j >= |front| ==> out[j] in rest;
      }
    }
  }

  // ---- the lines

  function Bullets(fragments: seq<Fragment>): seq<string> {
    seq(|fragments|, i requires 0 <= i < |fragments| => Bullet(fragments[i]))
  }

  /** The lines so far, followed by one more group. */
  function AppendGroup(lines: seq<string>, kind: ChangeType, group: seq<Fragment>): seq<string> {
    (if lines == [] then [] else lines + [""]) + ([TypeHeading(kind), ""] + Bullets(group))
  }

  /** Appends the groups of the given types to `lines`, a blank line between groups. */
  function AppendTypes(lines: seq<string>, types: seq<ChangeType>, fragments: seq<Fragment>, target: Target): seq<string>
    decreases |types|
  {
    if types == [] then lines
    else
      var group := Group(fragments, target, types[0]);
      AppendTypes(if group == [] then lines else AppendGroup(lines, types[0], group), types[1..], fragments, target)
  }

  function ChangeLines(fragments: seq<Fragment>, target: Target): seq<string> {
    AppendTypes([], CHANGE_TYPES, fragments, target)
  }

  lemma BulletsOneMore(fragments: seq<Fragment>, i: nat)
    requires i < |fragments|
    ensures Bullets(fragments[..i + 1]) == Bullets(fragments[..i]) + [Bullet(fragments[i])]
  {
  }

  method RenderChangeSections(fragments: seq<Fragment>, target: Target) returns (lines: seq<string>)
    ensures lines == ChangeLines(fragments, target)
  {
    hide Group, Bullets, TypeHeading, Bullet, AppendTypes;
    lines := [];
    AppendTypesUnfold([], fragments, target);
    for k := 0 to |CHANGE_TYPES|
      invariant AppendTypes(lines, CHANGE_TYPES[k..], fragments, target) == ChangeLines(fragments, target)
    {
      assert CHANGE_TYPES[k..][1..] == CHANGE_TYPES[k + 1..];
      AppendTypesUnfold(CHANGE_TYPES[k..], fragments, target);
      var matching := Group(fragments, target, CHANGE_TYPES[k]);
      if matching != [] {
        ghost var sep := if lines == [] then [] else lines + [""];
        ghost var before := sep + [TypeHeading(CHANGE_TYPES[k]), ""];
        if |lines| > 0 {
          lines := lines + [""];
        }
        lines := lines + [TypeHeading(CHANGE_TYPES[k]), ""];
        NoBullets();
        for i := 0 to |matching|
          invariant lines == before + Bullets(matching[..i])
        {
          BulletsOneMore(matching, i);
          lines := lines + [Bullet(matching[i])];
        }
        assert matching[..|matching|] == matching;
        ConcatAssoc(sep, [TypeHeading(CHANGE_TYPES[k]), ""], Bullets(matching));
      }
    }
  }

  lemma AppendTypesUnfold(types: seq<ChangeType>, fragments: seq<Fragment>, target: Target)
    ensures forall lines :: AppendTypes(lines, types, fragments, target) ==
              if types == [] then lines
              else
                var group := Group(fragments, target, types[0]);
                AppendTypes(if group == [] then lines else AppendGroup(lines, types[0], group), types[1..], fragments, target)
  {
  }

  lemma NoBullets()
    ensures Bullets([]) == []
  {
  }

  function BulletLines(lines: seq<string>): seq<string> {
    if lines == [] then []
    else (if IsBullet(lines[0]) then [lines[0]] else []) + BulletLines(lines[1..])
  }

  lemma {:induction false} BulletLinesConcat(a: seq<string>, b: seq<string>)
    ensures BulletLines(a + b) == BulletLines(a) + BulletLines(b)
  {
    if a == [] {
      assert a + b == b;
    } else {
      var first := if IsBullet(a[0]) then [a[0]] else [];
      BulletLinesConcat(a[1..], b);
      assert (a + b)[1..] == a[1..] + b;
      assert BulletLines(a) == first + BulletLines(a[1..]);
      assert BulletLines(a + b) == first + BulletLines(a[1..] + b);
      hide BulletLines;
      ConcatAssoc(first, BulletLines(a[1..]), BulletLines(b));
    }
  }

  lemma {:induction false} BulletLinesOfBullets(fragments: seq<Fragment>)
    ensures BulletLines(Bullets(fragments)) == Bullets(fragments)
  {
    if fragments != [] {
      var first := Bullet(fragments[0]);
      BulletIsBullet(fragments[0]);
      BulletLinesOfBullets(fragments[1..]);
      assert BulletLines([first]) == [first] by {
        assert [first][1..] == [];
      }
      hide BulletLines, Bullet;
      BulletLinesConcat([first], Bullets(fragments[1..]));
      assert Bullets(fragments) == [first] + Bullets(fragments[1..]);
    }
  }

  lemma NotBullets(kind: ChangeType)
    ensures BulletLines([TypeHeading(kind), ""]) == [] && BulletLines([""]) == []
  {
    assert [TypeHeading(kind), ""][1..] == [""] && [""][1..] == [];
    assert TypeHeading(kind)[0] == '#';
  }

  lemma AppendGroupBullets(lines: seq<string>, kind: ChangeType, group: seq<Fragment>)
    ensures BulletLines(AppendGroup(lines, kind, group)) == BulletLines(lines) + Bullets(group)
  {
    hide BulletLines, Bullets, TypeHeading;
    var sep := if lines == [] then [] else lines + [""];
    NotBullets(kind);
    BulletLinesConcat(lines, [""]);
    BulletLinesConcat([TypeHeading(kind), ""], Bullets(group));
    BulletLinesConcat(sep, [TypeHeading(kind), ""] + Bullets(group));
    BulletLinesOfBullets(group);
  }

  /** The bullets of the lines are the bullets of the fragments naming the target, in order. */
  lemma {:induction false} AppendTypesBullets(lines: seq<string>, types: seq<ChangeType>, fragments: seq<Fragment>, target: Target)
    ensures BulletLines(AppendTypes(lines, types, fragments, target))
         == BulletLines(lines) + Bullets(Grouped(types, fragments, target))
    decreases |types|
  {
    if types == [] {
      NoBullets();
    } else {
      hide BulletLines, Bullets, Grouped, Group, AppendGroup;
      var group := Group(fragments, target, types[0]);
      var rest := Grouped(types[1..], fragments, target);
      GroupedUnfold(types, fragments, target);
      BulletsConcat(group, rest);
      if group == [] {
        AppendTypesBullets(lines, types[1..], fragments, target);
        assert group + rest == rest;
      } else {
        AppendTypesBullets(AppendGroup(lines, types[0], group), types[1..], fragments, target);
        AppendGroupBullets(lines, types[0], group);
        ConcatAssoc(BulletLines(lines), Bullets(group), Bullets(rest));
      }
    }
  }

  lemma BulletsConcat(a: seq<Fragment>, b: seq<Fragment>)
    ensures Bullets(a + b) == Bullets(a) + Bullets(b)
  {
  }

  /** Exactly the fragments naming the target are printed, each once, in the sorted order. */
  lemma ChangeLinesBullets(fragments: seq<Fragment>, target: Target)
    ensures BulletLines(ChangeLines(fragments, target)) == Bullets(Ordered(fragments, target))
  {
    AppendTypesBullets([], CHANGE_TYPES, fragments, target);
  }

  lemma GroupedUnfold(types: seq<ChangeType>, fragments: seq<Fragment>, target: Target)
    requires types != []
    ensures Grouped(types, fragments, target)
         == Group(fragments, target, types[0]) + Grouped(types[1..], fragments, target)
  {
  }

  // ---- layout

  /** A blank line separates a heading from its bullets, or a bullet from the next heading. */
  predicate Separates(lines: seq<string>, i: int) {
    && 0 < i < |lines| - 1
    && ((IsTypeHeading(lines[i - 1]) && IsBullet(lines[i + 1])) || (IsBullet(lines[i - 1]) && IsTypeHeading(lines[i + 1])))
  }

  /** Blank lines only separate: they neither lead nor trail nor come in pairs. */
  predicate LaidOut(lines: seq<string>) {
    && (lines != [] ==> IsTypeHeading(lines[0]) && IsBullet(lines[|lines| - 1]))
    && forall i :: 0 <= i < |lines| ==> IsTypeHeading(lines[i]) || IsBullet(lines[i]) || (lines[i] == "" && Separates(lines, i))
  }

  lemma OneGroupLaidOut(heading: string, bullets: seq<string>)
    requires IsTypeHeading(heading) && bullets != []
    requires forall i :: 0 <= i < |bullets| ==> IsBullet(bullets[i])
    ensures LaidOut([heading, ""] + bullets)
  {
    hide IsTypeHeading, IsBullet;
    var out := [heading, ""] + bullets;
    assert out[0] == heading && out[1] == "" && out[2] == bullets[0];
    assert Separates(out, 1);
    assert forall i :: 2 <= i < |out| ==> out[i] == bullets[i - 2];
  }

  lemma JoinedLaidOut(a: seq<string>, b: seq<string>)
    requires LaidOut(a) && LaidOut(b) && a != [] && b != []
    ensures LaidOut(a + [""] + b)
  {
    hide IsTypeHeading, IsBullet;
    var out := a + [""] + b;
    var n := |a|;
    assert out[n - 1] == a[n - 1] && out[n] == "" && out[n + 1] == b[0];
    assert Separates(out, n);
    assert out[|out| - 1] == b[|b| - 1];
    forall i | 0 <= i < |out|
      ensures IsTypeHeading(out[i]) || IsBullet(out[i]) || (out[i] == "" && Separates(out, i))
    {
      if i < n {
        assert out[i] == a[i];
        if Separates(a, i) {
          assert out[i - 1] == a[i - 1] && out[i + 1] == a[i + 1];
        }
      } else if i > n {
        var k := i - n - 1;
        assert out[i] == b[k];
        if Separates(b, k) {
          assert out[i - 1] == b[k - 1] && out[i + 1] == b[k + 1];
        }
      }
    }
  }

  lemma AppendGroupLaidOut(lines: seq<string>, kind: ChangeType, group: seq<Fragment>)
    requires LaidOut(lines) && group != []
    ensures LaidOut(AppendGroup(lines, kind, group))
  {
    var bullets := Bullets(group);
    forall i | 0 <= i < |bullets| ensures IsBullet(bullets[i]) {
      BulletIsBullet(group[i]);
    }
    OneGroupLaidOut(TypeHeading(kind), bullets);
    hide LaidOut, TypeHeading, Bullet, Bullets;
    if lines == [] {
      assert AppendGroup(lines, kind, group) == [TypeHeading(kind), ""] + bullets;
    } else {
      JoinedLaidOut(lines, [TypeHeading(kind), ""] + bullets);
    }
  }

  lemma BulletIsBullet(f: Fragment)
    ensures IsBullet(Bullet(f))
  {
    assert Bullet(f)[..2] == "- ";
  }

  lemma {:induction false} AppendTypesLaidOut(lines: seq<string>, types: seq<ChangeType>, fragments: seq<Fragment>, target: Target)
    requires LaidOut(lines)
    ensures LaidOut(AppendTypes(lines, types, fragments, target))
    decreases |types|
  {
    if types != [] {
      hide LaidOut, AppendGroup, Group;
      var group := Group(fragments, target, types[0]);
      if group == [] {
        AppendTypesLaidOut(lines, types[1..], fragments, target);
      } else {
        AppendGroupLaidOut(lines, types[0], group);
        AppendTypesLaidOut(AppendGroup(lines, types[0], group), types[1..], fragments, target);
      }
    }
  }

  /** The rendered groups are headed, separated by single blank lines, and end in a bullet. */
  lemma ChangeLinesLaidOut(fragments: seq<Fragment>, target: Target)
    ensures LaidOut(ChangeLines(fragments, target))
  {
    AppendTypesLaidOut([], CHANGE_TYPES, fragments, target);
  }

  // ---- what the lines are made of

  /** Text that survives being a line of a changelog: no line break and a non-blank end. */
  predicate LineText(s: string) {
    s != "" && '\n' !in s && '\r' !in s && !IsSpace(s[|s| - 1])
  }

  lemma {:induction false} NumeralIsLineText(n: nat)
    ensures AllDigits(Numeral(n)) && LineText(Numeral(n))
  {
    NumeralRoundTrip(n);
    var s := Numeral(n);
    assert IsDigit(s[|s| - 1]);
    forall c | c in s ensures IsDigit(c) {
    }
  }

  lemma {:induction false} IssueListIsLineText(issues: seq<nat>)
    requires issues != []
    ensures LineText(IssueList(issues))
  {
    NumeralIsLineText(issues[0]);
    if |issues| > 1 {
      IssueListIsLineText(issues[1..]);
    }
  }

  /** A bullet is one line with a non-blank end, so no later trimming can touch it. */
  lemma BulletIsLineText(f: Fragment)
    requires ValidFragment(f)
    ensures LineText(Bullet(f)) && TrimEnd(Bullet(f)) == Bullet(f)
  {
    if f.issues != [] {
      IssueListIsLineText(f.issues);
    }
    hide IssueList;
    assert LineText(Bullet(f));
  }

  predicate AllValid(fragments: seq<Fragment>) {
    forall i :: 0 <= i < |fragments| ==> ValidFragment(fragments[i])
  }

  predicate SafeLine(line: string) {
    line == "" || (LineText(line) && !IsHeading(line))
  }

  predicate SafeLines(lines: seq<string>) {
    forall i :: 0 <= i < |lines| ==> SafeLine(lines[i])
  }

  lemma TypeHeadingIsSafe(kind: ChangeType)
    ensures SafeLine(TypeHeading(kind))
  {
    var line := TypeHeading(kind);
    assert line[2] == '#';
    assert !IsSpace(line[|line| - 1]);
  }

  lemma AppendGroupSafe(lines: seq<string>, kind: ChangeType, group: seq<Fragment>)
    requires SafeLines(lines) && AllValid(group)
    ensures SafeLines(AppendGroup(lines, kind, group))
  {
    hide Bullet, TypeHeading;
    var out, bullets := AppendGroup(lines, kind, group), Bullets(group);
    TypeHeadingIsSafe(kind);
    forall i | 0 <= i < |bullets| ensures SafeLine(bullets[i]) {
      BulletIsLineText(group[i]);
      BulletIsBullet(group[i]);
      assert bullets[i][0] == '-';
    }
    hide SafeLine;
  }

  lemma {:induction false} AppendTypesSafe(lines: seq<string>, types: seq<ChangeType>, fragments: seq<Fragment>, target: Target)
    requires SafeLines(lines) && AllValid(fragments)
    ensures SafeLines(AppendTypes(lines, types, fragments, target))
    decreases |types|
  {
    if types != [] {
      hide SafeLines, AppendGroup, ValidFragment;
      var group := Group(fragments, target, types[0]);
      GroupMembers(fragments, target, types[0]);
      assert AllValid(group);
      if group == [] {
        AppendTypesSafe(lines, types[1..], fragments, target);
      } else {
        AppendGroupSafe(lines, types[0], group);
        AppendTypesSafe(AppendGroup(lines, types[0], group), types[1..], fragments, target);
      }
    }
  }

  lemma ChangeLinesSafe(fragments: seq<Fragment>, target: Target)
    requires AllValid(fragments)
    ensures SafeLines(ChangeLines(fragments, target))
  {
    assert SafeLines([]);
    AppendTypesSafe([], CHANGE_TYPES, fragments, target);
  }
}
