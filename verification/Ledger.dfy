/** Counting bullets: how often a changelog prints a bullet, and how often a list of fragments
    will print it. */
module Ledger {
  import opened JsText
  import opened Markdown
  import opened Fragments
  import opened ChangeSections
  import opened Changelog
  import opened Reparse
  import opened Editing

  /** How many of the lines are the bullet, leaving white space at the end of a line aside. */
  function Printed(lines: seq<string>, bullet: string): nat {
    if lines == [] then 0
    else (if TrimEnd(lines[0]) == bullet then 1 else 0) + Printed(lines[1..], bullet)
  }

  /** How often a changelog text prints the bullet. */
  function PrintedIn(markdown: string, bullet: string): nat {
    Printed(Flatten(Parse(markdown)), bullet)
  }

  /** How often the fragments naming the target turn into the bullet. */
  function FragmentBullets(fragments: seq<Fragment>, target: Target, bullet: string): nat {
    if fragments == [] then 0
    else
      (if target in fragments[0].targets && Bullet(fragments[0]) == bullet then 1 else 0)
      + FragmentBullets(fragments[1..], target, bullet)
  }

  lemma {:induction false} PrintedConcat(a: seq<string>, b: seq<string>, bullet: string)
    ensures Printed(a + b, bullet) == Printed(a, bullet) + Printed(b, bullet)
  {
    if a == [] {
      assert a + b == b;
    } else {
      PrintedConcat(a[1..], b, bullet);
      assert (a + b)[1..] == a[1..] + b;
    }
  }

  lemma ChopTrimmed(line: string)
    ensures TrimEnd(Chop(line)) == TrimEnd(line)
  {
  }

  /** A carriage return at the end of a line does not matter to what is printed. */
  lemma {:induction false} PrintedChopped(lines: seq<string>, bullet: string)
    ensures Printed(ChopLines(lines), bullet) == Printed(lines, bullet)
  {
    if lines != [] {
      hide TrimEnd, Chop;
      PrintedChopped(lines[1..], bullet);
      assert ChopLines(lines)[1..] == ChopLines(lines[1..]);
      ChopTrimmed(lines[0]);
    }
  }

  // ---- sorting by type loses and repeats nothing

  function Occurrences(lines: seq<string>, bullet: string): nat {
    if lines == [] then 0 else (if lines[0] == bullet then 1 else 0) + Occurrences(lines[1..], bullet)
  }

  lemma {:induction false} OccurrencesConcat(a: seq<string>, b: seq<string>, bullet: string)
    ensures Occurrences(a + b, bullet) == Occurrences(a, bullet) + Occurrences(b, bullet)
  {
    if a == [] {
      assert a + b == b;
    } else {
      OccurrencesConcat(a[1..], b, bullet);
      assert (a + b)[1..] == a[1..] + b;
    }
  }

  lemma {:induction false} OccurrencesOfBulletLines(lines: seq<string>, bullet: string)
    requires IsBullet(bullet)
    ensures Occurrences(BulletLines(lines), bullet) == Occurrences(lines, bullet)
  {
    if lines != [] {
      var first := if IsBullet(lines[0]) then [lines[0]] else [];
      OccurrencesOfBulletLines(lines[1..], bullet);
      OccurrencesConcat(first, BulletLines(lines[1..]), bullet);
      assert first != [] ==> first[1..] == [];
    }
  }

  function GroupBullets(fragments: seq<Fragment>, target: Target, kind: ChangeType, bullet: string): nat {
    Occurrences(Bullets(Group(fragments, target, kind)), bullet)
  }

  /** A fragment adds its bullet to the group of its own type and to no other. */
  lemma GroupBulletsCons(fragments: seq<Fragment>, target: Target, kind: ChangeType, bullet: string)
    requires fragments != []
    ensures GroupBullets(fragments, target, kind, bullet)
         == (if fragments[0].kind == kind && target in fragments[0].targets && Bullet(fragments[0]) == bullet then 1 else 0)
            + GroupBullets(fragments[1..], target, kind, bullet)
  {
    hide Bullet;
    var f, rest := fragments[0], Group(fragments[1..], target, kind);
    if f.kind == kind && target in f.targets {
      assert Group(fragments, target, kind) == [f] + rest;
      assert Bullets([f] + rest) == [Bullet(f)] + Bullets(rest);
      assert ([Bullet(f)] + Bullets(rest))[1..] == Bullets(rest);
    } else {
      assert [] + rest == rest;
    }
  }

  /** The bullets of the types from `from` on. */
  function GroupedBullets(from: nat, fragments: seq<Fragment>, target: Target, bullet: string): nat
    requires from <= 6
    decreases 6 - from
  {
    if from == 6 then 0
    else GroupBullets(fragments, target, CHANGE_TYPES[from], bullet) + GroupedBullets(from + 1, fragments, target, bullet)
  }

  lemma {:induction false} GroupedBulletsNone(from: nat, target: Target, bullet: string)
    requires from <= 6
    ensures GroupedBullets(from, [], target, bullet) == 0
    decreases 6 - from
  {
    if from < 6 {
      GroupedBulletsNone(from + 1, target, bullet);
      assert Bullets(Group([], target, CHANGE_TYPES[from])) == [];
    }
  }

  lemma RankIsPosition(kind: ChangeType, from: nat)
    requires from < 6
    ensures kind == CHANGE_TYPES[from] <==> Rank(kind) == from
  {
    assert CHANGE_TYPES[Rank(kind)] == kind;
  }

  lemma {:induction false} GroupedBulletsCons(from: nat, fragments: seq<Fragment>, target: Target, bullet: string)
    requires from <= 6 && fragments != []
    ensures GroupedBullets(from, fragments, target, bullet)
         == (if Rank(fragments[0].kind) >= from && target in fragments[0].targets && Bullet(fragments[0]) == bullet then 1 else 0)
            + GroupedBullets(from, fragments[1..], target, bullet)
    decreases 6 - from
  {
    if from < 6 {
      RankIsPosition(fragments[0].kind, from);
      hide GroupBullets, Bullet, Rank, CHANGE_TYPES;
      GroupedBulletsCons(from + 1, fragments, target, bullet);
      GroupBulletsCons(fragments, target, CHANGE_TYPES[from], bullet);
    }
  }

  lemma {:induction false} GroupedBulletsAreAll(fragments: seq<Fragment>, target: Target, bullet: string)
    ensures GroupedBullets(0, fragments, target, bullet) == FragmentBullets(fragments, target, bullet)
  {
    hide GroupedBullets, Bullet;
    if fragments == [] {
      GroupedBulletsNone(0, target, bullet);
    } else {
      GroupedBulletsAreAll(fragments[1..], target, bullet);
      GroupedBulletsCons(0, fragments, target, bullet);
    }
  }

  lemma {:induction false} OrderedByGroups(from: nat, fragments: seq<Fragment>, target: Target, bullet: string)
    requires from <= 6
    ensures Occurrences(Bullets(Grouped(CHANGE_TYPES[from..], fragments, target)), bullet)
         == GroupedBullets(from, fragments, target, bullet)
    decreases 6 - from
  {
    if from < 6 {
      hide Bullets, Group, Occurrences;
      OrderedByGroups(from + 1, fragments, target, bullet);
      assert CHANGE_TYPES[from..][1..] == CHANGE_TYPES[from + 1..];
      GroupedUnfold(CHANGE_TYPES[from..], fragments, target);
      var group, rest := Group(fragments, target, CHANGE_TYPES[from]), Grouped(CHANGE_TYPES[from + 1..], fragments, target);
      BulletsConcat(group, rest);
      OccurrencesConcat(Bullets(group), Bullets(rest), bullet);
    } else {
      assert CHANGE_TYPES[6..] == [];
      NoBullets();
    }
  }

  // ---- a release section

  lemma SafeLineTrimmed(line: string)
    requires SafeLine(line)
    ensures TrimEnd(line) == line
  {
  }

  lemma {:induction false} PrintedSafe(lines: seq<string>, bullet: string)
    requires SafeLines(lines)
    ensures Printed(lines, bullet) == Occurrences(lines, bullet)
  {
    if lines != [] {
      hide SafeLine, TrimEnd;
      PrintedSafe(lines[1..], bullet);
      SafeLineTrimmed(lines[0]);
    }
  }

  /** The rendered groups print each bullet as often as the fragments naming the target do. */
  lemma ChangeLinesPrint(fragments: seq<Fragment>, target: Target, bullet: string)
    requires AllValid(fragments) && IsBullet(bullet)
    ensures Printed(ChangeLines(fragments, target), bullet) == FragmentBullets(fragments, target, bullet)
  {
    hide *;
    var lines := ChangeLines(fragments, target);
    ChangeLinesSafe(fragments, target);
    PrintedSafe(lines, bullet);
    OccurrencesOfBulletLines(lines, bullet);
    ChangeLinesBullets(fragments, target);
    OrderedIsGrouped(fragments, target);
    OrderedByGroups(0, fragments, target, bullet);
    GroupedBulletsAreAll(fragments, target, bullet);
  }

  lemma OrderedIsGrouped(fragments: seq<Fragment>, target: Target)
    ensures Ordered(fragments, target) == Grouped(CHANGE_TYPES[0..], fragments, target)
  {
    assert CHANGE_TYPES[0..] == CHANGE_TYPES;
  }

  lemma PrintedOne(line: string, bullet: string)
    requires SafeLine(line) || LineText(line)
    ensures Printed([line], bullet) == if line == bullet then 1 else 0
  {
    assert [line][1..] == [];
    assert TrimEnd(line) == line;
  }

  lemma BodyPrints(intro: string, change: seq<string>, bullet: string)
    requires SafeLine(intro) && intro != "" && !IsBullet(intro) && IsBullet(bullet)
    ensures Printed(BodyLines(intro, change), bullet) == Printed(change, bullet)
  {
    EmptyIsSafe();
    PrintedOne("", bullet);
    PrintedOne(intro, bullet);
    hide Printed;
    PrintedConcat([""], [intro], bullet);
    PrintedConcat([""], change, bullet);
    assert ["", intro] == [""] + [intro];
    var middle := if change == [] then [] else [""] + change;
    PrintedConcat(["", intro], middle, bullet);
    PrintedConcat(["", intro] + middle, [""], bullet);
    PrintedNone(bullet);
  }

  lemma PrintedNone(bullet: string)
    ensures Printed([], bullet) == 0
  {
  }

  /** A release section prints exactly the bullets of the fragments naming its target. */
  lemma ReleasePrints(target: Target, version: string, date: string, fragments: seq<Fragment>,
                      after: seq<Section>, bullet: string)
    requires GoodArguments(version, date, fragments) && IsBullet(bullet)
    ensures Printed(SectionLines(Settled(Release(target, version, date, fragments), after)), bullet)
         == FragmentBullets(fragments, target, bullet)
  {
    var s := Release(target, version, date, fragments);
    ReleaseIsSafeSection(target, version, date, fragments);
    SafeSectionFacts(s, after);
    SettledMeans(s, after);
    assert s.heading != bullet by {
      assert s.heading[0] == '#' && bullet[0] == '-';
    }
    PrintedOne(s.heading, bullet);
    EmptyIsSafe();
    PrintedOne("", bullet);
    hide *;
    ReleaseUnfold(target, version, date, fragments);
    IntroIsSafe(target, version) by { GoodMeans(version, date, fragments); }
    GoodMeans(version, date, fragments);
    BodyPrints(ReleaseIntro(target, version), ChangeLines(fragments, target), bullet);
    ChangeLinesPrint(fragments, target, bullet);
    SectionLinesMean(s);
    PrintedConcat([s.heading], s.body, bullet);
    PrintedConcat(SectionLines(Tightened(s)), [""], bullet);
  }

  lemma GoodMeans(version: string, date: string, fragments: seq<Fragment>)
    requires GoodArguments(version, date, fragments)
    ensures Plain(version) && AllValid(fragments)
  {
  }

  lemma SectionLinesMean(s: Section)
    ensures SectionLines(s) == [s.heading] + s.body
  {
  }

  // ---- a whole changelog

  /** Writing a release adds the bullets of its fragments to what the changelog prints, and
      takes away what the replaced section printed; nothing else comes or goes. */
  lemma ApplyLedger(markdown: string, target: Target, version: string, date: string, fragments: seq<Fragment>,
                    p: Place, bullet: string)
    requires GoodArguments(version, date, fragments) && IsBullet(bullet)
    requires PlaceFor(Parse(markdown).sections, version) == Some(p) && (fragments != [] || p.replaced == [])
    ensures var r := Apply(markdown, target, version, date, fragments);
            r.Some? && PrintedIn(r.value, bullet) + Printed(FlattenSections(p.replaced), bullet)
                       == PrintedIn(markdown, bullet) + FragmentBullets(fragments, target, bullet)
  {
    var d, s := Parse(markdown), Release(target, version, date, fragments);
    ApplyWrites(markdown, target, version, date, fragments, p);
    ReleasePrints(target, version, date, fragments, p.after, bullet);
    PlaceCuts(d.sections, version, p);
    var e := Edited(markdown, target, version, date, fragments, p);
    ReadBack(e);
    ChopFlatten(e);
    PrintedChopped(Flatten(e), bullet);
    EditedMeans(markdown, target, version, date, fragments, p);
    hide Parse, Render, Flatten, Printed, FlattenSections, Edited, Release, SectionLines, Settled, Apply, PlaceFor, With,
         FragmentBullets, IsReleaseOf;
    FlattenWith(d.preamble, p.before, Settled(s, p.after), p.after);
    FlattenCut(d, p);
    var b, x, a := FlattenSections(p.before), SectionLines(Settled(s, p.after)), FlattenSections(p.after);
    var o := FlattenSections(p.replaced);
    PrintedConcat(d.preamble, b + x + a, bullet);
    PrintedConcat(b + x, a, bullet);
    PrintedConcat(b, x, bullet);
    PrintedConcat(d.preamble, b + (o + a), bullet);
    PrintedConcat(b, o + a, bullet);
    PrintedConcat(o, a, bullet);
  }
}
