/** Two tests for `| undefined`: the schema generator looks at the top-level members of a type,
    the client generators search the text for `/\|\s*undefined/`. */
module UndefinedTests {
  import opened JsText
  import opened TypeText
  import opened BracketText
  import opened PrintedType

  /** A bar with `undefined` after it at position `i`. */
  predicate BarredAt(s: string, i: int) {
    0 <= i < |s| && s[i] == '|' && StartsWith(TrimStart(s[i + 1..]), "undefined")
  }

  /** `/\|\s*undefined/.test(s)`. */
  predicate BarredUndefined(s: string) {
    exists i :: 0 <= i < |s| && BarredAt(s, i)
  }

  /** `undefined` alone, up to the end or the next bar. */
  predicate LoneUndefined(s: string) {
    && StartsWith(TrimStart(s), "undefined")
    && (var rest := TrimStart(TrimStart(s)[9..]); rest == "" || rest[0] == '|')
  }

  /** Outside all brackets, a bar and then `undefined` alone. */
  predicate MemberAt(s: string, d: int, i: int) {
    0 <= i < |s| && s[i] == '|' && d + Level(s[..i]) == 0 && LoneUndefined(s[i + 1..])
  }

  predicate LaterMember(s: string, d: int) {
    exists i :: 0 <= i < |s| && MemberAt(s, d, i)
  }

  // ---- white space

  /** White space in front of what was read so far makes no difference. */
  lemma {:induction false} SplitLeading(s: string, d: int, space: string, current: string)
    requires AllSpace(space)
    ensures SplitFrom(s, d, space + current) == SplitFrom(s, d, current)
    decreases |s|
  {
    hide Trim, AllSpace;
    TrimSkips(current, space);
    if s != "" && !(s[0] == '|' && d == 0) {
      ConcatAssoc(space, current, [s[0]]);
      SplitLeading(s[1..], d + Bracket(s[0]), space, current + [s[0]]);
    }
  }

  lemma SpaceIsNoBar(space: string, d: int)
    requires AllSpace(space)
    ensures NoTopBar(space, d)
    decreases |space|
  {
    if space != "" {
      SpaceIsNoBar(space[1..], d);
    }
  }

  lemma {:induction false} SplitTrailing(s: string, d: int, current: string, space: string)
    requires AllSpace(space)
    ensures SplitFrom(s + space, d, current) == SplitFrom(s, d, current)
    decreases |s|
  {
    hide Trim, AllSpace, SplitFrom, Bracket;
    if s == "" {
      SpacesSplit(d, current, space);
      assert s + space == space;
    } else {
      var c, rest := s[0], s[1..];
      assert s == [c] + rest;
      ConcatAssoc([c], rest, space);
      SplitStep(c, rest, d, current);
      SplitStep(c, rest + space, d, current);
      SplitTrailing(rest, 0, "", space);
      SplitTrailing(rest, d + Bracket(c), current + [c], space);
    }
  }

  lemma SpacesSplit(d: int, current: string, space: string)
    requires AllSpace(space)
    ensures SplitFrom(space, d, current) == SplitFrom("", d, current)
  {
    hide Trim, AllSpace;
    SpaceIsNoBar(space, d);
    SplitSkips(space, "", d, current);
    assert space + "" == space;
    TrimSkips(current, space);
  }

  lemma SplitLeadingSpace(space: string, s: string)
    requires AllSpace(space)
    ensures SplitFrom(space + s, 0, "") == SplitFrom(s, 0, "")
  {
    hide SplitFrom, AllSpace, NoTopBar, Level;
    SpaceIsNoBar(space, 0);
    SpaceIsFlatText(space);
    SplitSkips(space, s, 0, "");
    assert "" + space == space && space + "" == space;
    SplitLeading(s, 0, space, "");
  }

  lemma SplitTrimmed(s: string)
    ensures SplitUnion(Trim(s)) == SplitUnion(s)
  {
    hide SplitFrom, TrimStart, TrimEnd, AllSpace;
    var t := TrimStart(s);
    var r := TrimEnd(t);
    TrimStartCutsSpace(s);
    TrimEndCutsSpace(t);
    assert s == s[..|s| - |t|] + t && t == r + t[|r|..];
    SplitTrailing(r, 0, "", t[|r|..]);
    SplitLeadingSpace(s[..|s| - |t|], t);
  }

  lemma SpaceIsFlatText(space: string)
    requires AllSpace(space)
    ensures Flat(space) && Level(space) == 0
  {
    FlatIsAtom(space);
  }

  // ---- the first member

  /** The first bar outside all brackets, or the length. */
  function Stop(s: string, d: int): (k: nat)
    ensures k <= |s|
  {
    if s == "" || (s[0] == '|' && d == 0) then 0 else 1 + Stop(s[1..], d + Bracket(s[0]))
  }

  lemma {:induction false} FirstMember(s: string, d: int, current: string)
    ensures (var k := Stop(s, d); var first := Trim(current + s[..k]); var parts := SplitFrom(s, d, current);
             && (k < |s| ==> s[k] == '|' && parts != [] && parts[0] == first)
             && (k == |s| ==> parts == LastPart(current + s)))
    decreases |s|
  {
    hide Trim, LastPart;
    if s == "" {
      assert current + s == current;
    } else if s[0] == '|' && d == 0 {
      assert current + s[..0] == current;
    } else {
      FirstMember(s[1..], d + Bracket(s[0]), current + [s[0]]);
      var k := Stop(s, d);
      assert s[..k] == [s[0]] + s[1..][..k - 1];
      ConcatAssoc(current, [s[0]], s[1..][..k - 1]);
      ConcatAssoc(current, [s[0]], s[1..]);
      assert [s[0]] + s[1..] == s;
    }
  }

  lemma TrimmedUndefined(x: string, y: string)
    requires Trim(x) == "undefined" && (y == "" || y[0] == '|')
    ensures LoneUndefined(x + y)
  {
    hide TrimStart, TrimEnd, AllSpace, IsSpace;
    var t := TrimStart(x);
    TrimEndCutsSpace(t);
    TrimStartFront(x, y) by { assert t != ""; }
    var space := t[9..];
    assert t == "undefined" + space;
    assert (t + y)[9..] == space + y;
    TrimStartSkips(space, y);
    BarTrims(y);
  }

  lemma BarTrims(y: string)
    requires y == "" || y[0] == '|'
    ensures TrimStart(y) == y
  {
  }

  /** The parts of a text that begins with `undefined` alone. */
  lemma LoneParts(s: string) returns (before: string, after: string, r: string)
    requires LoneUndefined(s)
    ensures AllSpace(before) && AllSpace(after) && s == before + "undefined" + after + r && (r == "" || r[0] == '|')
  {
    hide TrimStart, AllSpace;
    var t := TrimStart(s);
    TrimStartCutsSpace(s);
    before := s[..|s| - |t|];
    var rest := t[9..];
    r := TrimStart(rest);
    TrimStartCutsSpace(rest);
    after := rest[..|rest| - |r|];
    assert s == before + t && t == "undefined" + rest && rest == after + r;
    ConcatAssoc(before, "undefined", rest);
    ConcatAssoc(before + "undefined", after, r);
  }

  lemma LoneIsFirst(s: string)
    requires LoneUndefined(s)
    ensures SplitUnion(s) != [] && SplitUnion(s)[0] == "undefined"
  {
    hide *;
    var before, after, r := LoneParts(s);
    var x := before + "undefined" + after;
    FlatX(before, after);
    SplitSkips(x, r, 0, "");
    assert "" + x == x;
    TrimX(before, after);
    FirstMember(r, 0, x);
    StopAtBar(r);
    assert x + r[..0] == x;
    LastAlone(x);
    SplitUnionMeans(s);
  }

  lemma SplitUnionMeans(s: string)
    ensures SplitUnion(s) == SplitFrom(s, 0, "")
  {
  }

  lemma LastAlone(x: string)
    requires Trim(x) == "undefined"
    ensures LastPart(x + "") == ["undefined"]
  {
    assert x + "" == x;
    hide Trim;
  }

  lemma StopAtBar(r: string)
    requires r == "" || r[0] == '|'
    ensures Stop(r, 0) == 0
  {
  }

  lemma FlatX(before: string, after: string)
    requires AllSpace(before) && AllSpace(after)
    ensures (var x := before + "undefined" + after; NoTopBar(x, 0) && Level(x) == 0)
  {
    var x := before + "undefined" + after;
    assert Flat("undefined") && Flat(before) && Flat(after);
    assert Flat(x);
    FlatIsAtom(x);
  }

  lemma TrimX(before: string, after: string)
    requires AllSpace(before) && AllSpace(after)
    ensures Trim(before + "undefined" + after) == "undefined"
  {
    hide AllSpace, Trim;
    TrimSkips(before + "undefined", after);
    TrimSkips("undefined", before);
    assert !IsSpace("undefined"[0]) && !IsSpace("undefined"[8]);
    TrimOfTrimmed("undefined");
  }

  lemma FirstIsUndefined(s: string)
    ensures LoneUndefined(s) <==> SplitUnion(s) != [] && SplitUnion(s)[0] == "undefined"
  {
    hide TrimStart, TrimEnd, Trim, SplitFrom, Stop, LoneUndefined;
    if LoneUndefined(s) {
      LoneIsFirst(s);
    }
    if SplitUnion(s) != [] && SplitUnion(s)[0] == "undefined" {
      FirstMember(s, 0, "");
      var k := Stop(s, 0);
      assert "" + s[..k] == s[..k] && "" + s == s && s == s[..k] + s[k..];
      assert k == |s| ==> s[..k] == s;
      assert k < |s| ==> s[k..][0] == '|';
      TrimmedUndefined(s[..k], s[k..]);
    }
  }

  // ---- the members after the first

  lemma MemberStep(s: string, d: int)
    requires s != ""
    ensures LaterMember(s, d) <==> (s[0] == '|' && d == 0 && LoneUndefined(s[1..])) || LaterMember(s[1..], d + Bracket(s[0]))
  {
    hide LoneUndefined;
    forall i | 0 <= i < |s| ensures MemberAt(s, d, i) <==> (if i == 0 then s[0] == '|' && d == 0 && LoneUndefined(s[1..])
                                                         else MemberAt(s[1..], d + Bracket(s[0]), i - 1)) {
      if i == 0 {
        assert Level(s[..0]) == 0;
      } else {
        assert s[..i][1..] == s[1..][..i - 1] && s[i + 1..] == s[1..][i..];
      }
    }
    assert s[0] == '|' && d == 0 && LoneUndefined(s[1..]) ==> MemberAt(s, d, 0);
    if LaterMember(s, d) {
      var i :| 0 <= i < |s| && MemberAt(s, d, i);
      assert i > 0 ==> MemberAt(s[1..], d + Bracket(s[0]), i - 1);
    }
    if LaterMember(s[1..], d + Bracket(s[0])) {
      var j :| 0 <= j < |s| - 1 && MemberAt(s[1..], d + Bracket(s[0]), j);
      assert MemberAt(s, d, j + 1);
    }
  }

  lemma {:induction false} LaterMembers(s: string, d: int, current: string)
    ensures (var parts := SplitFrom(s, d, current);
             LaterMember(s, d) <==> |parts| > 1 && "undefined" in parts[1..])
    decreases |s|
  {
    hide Trim, LoneUndefined, LaterMember, MemberAt;
    if s == "" {
      NoMember(d);
    } else {
      MemberStep(s, d);
      if s[0] == '|' && d == 0 {
        var rest := SplitFrom(s[1..], 0, "");
        LaterMembers(s[1..], 0, "");
        FirstIsUndefined(s[1..]);
        assert SplitFrom(s, d, current)[1..] == rest;
        assert rest != [] ==> rest == [rest[0]] + rest[1..];
      } else {
        LaterMembers(s[1..], d + Bracket(s[0]), current + [s[0]]);
      }
    }
  }

  lemma NoMember(d: int)
    ensures !LaterMember("", d)
  {
  }

  /** Where `undefined` must stand for the schema generator to see it. */
  lemma AdmitsExactly(text: string)
    ensures TypeAdmitsUndefined(text) <==> LoneUndefined(text) || LaterMember(text, 0)
  {
    hide SplitFrom, Trim, LoneUndefined, LaterMember;
    SplitTrimmed(text);
    FirstIsUndefined(text);
    LaterMembers(text, 0, "");
    var parts := SplitUnion(text);
    assert parts != [] ==> parts == [parts[0]] + parts[1..];
  }

  /** A member after the first is always found by the search. */
  lemma LaterIsBarred(text: string)
    ensures LaterMember(text, 0) ==> BarredUndefined(text)
  {
    hide TrimStart, Level;
    if LaterMember(text, 0) {
      var i :| 0 <= i < |text| && MemberAt(text, 0, i);
      assert BarredAt(text, i);
    }
  }

  /** When a property may be left out of the schema's `required` list, and when a client may
      leave it out. */
  predicate SchemaOptional(question: bool, text: string) {
    question || TypeAdmitsUndefined(text)
  }

  predicate ClientOptional(question: bool, text: string) {
    question || BarredUndefined(text)
  }

  /** On any text, a disagreement is a hit that is no member, or a leading `undefined` and no hit. */
  lemma AgreeOnText(text: string)
    ensures (SchemaOptional(false, text) <==> ClientOptional(false, text))
       <==> (BarredUndefined(text) ==> LoneUndefined(text) || LaterMember(text, 0))
            && (LoneUndefined(text) ==> BarredUndefined(text))
  {
    hide LoneUndefined, LaterMember, BarredUndefined, TypeAdmitsUndefined;
    AdmitsExactly(text);
    LaterIsBarred(text);
  }

  /** When every hit is a whole top-level member and the first member is not `undefined`, no
      property that a client may omit is required, and no other way round. */
  lemma MembersOnlyAgree(question: bool, text: string)
    requires forall i :: BarredAt(text, i) ==> MemberAt(text, 0, i)
    requires !LoneUndefined(text)
    ensures SchemaOptional(question, text) <==> ClientOptional(question, text)
  {
    hide LoneUndefined, TypeAdmitsUndefined, BarredAt, Level;
    if BarredUndefined(text) {
      var i :| 0 <= i < |text| && BarredAt(text, i);
      assert MemberAt(text, 0, i);
    }
    AgreeOnText(text);
  }

  lemma BarThenUndefined(before: string, after: string)
    ensures BarredUndefined(before + " | undefined" + after)
  {
    var s := before + " | undefined" + after;
    var i := |before| + 1;
    assert s[i] == '|' && s[i + 1..] == " " + ("undefined" + after);
    TrimStartSpace("undefined" + after);
    assert BarredAt(s, i);
  }

  /** `Array<A | undefined>` and every type like it: a client may omit the property, and the
      schema requires it. */
  lemma NestedUndefinedDiffers(generic: string, members: seq<string>)
    requires IsWord(generic) && members != [] && AllPiece(members)
    ensures (var text := generic + "<" + Bars(members + ["undefined"]) + ">";
             ClientOptional(false, text) && !SchemaOptional(false, text))
  {
    hide *;
    var all := members + ["undefined"];
    GenericText(generic, members);
    BarThenUndefined(generic + "<" + Bars(members), ">");
    ArgumentBalanced(members);
    WordPiece(generic);
    GenericIsMember(generic, Bars(all));
    NotUndefined(generic + "<" + Bars(all) + ">");
    MemberAdmits(generic + "<" + Bars(all) + ">");
    OptionalWithoutMark(generic + "<" + Bars(all) + ">");
  }

  lemma OptionalWithoutMark(text: string)
    ensures SchemaOptional(false, text) <==> TypeAdmitsUndefined(text)
    ensures ClientOptional(false, text) <==> BarredUndefined(text)
  {
    hide TypeAdmitsUndefined, BarredUndefined;
  }

  lemma GenericText(generic: string, members: seq<string>)
    requires members != []
    ensures generic + "<" + Bars(members + ["undefined"]) + ">" == generic + "<" + Bars(members) + " | undefined" + ">"
  {
    BarsSnoc(members, "undefined");
    hide Bars;
  }

  lemma ArgumentBalanced(members: seq<string>)
    requires AllPiece(members)
    ensures Balanced(Bars(members + ["undefined"]))
  {
    WordPiece("undefined");
    hide Piece, Bars;
    BarsWhole(members + ["undefined"]);
  }

  lemma NotUndefined(text: string)
    requires text != "" && text[|text| - 1] == '>'
    ensures text != "undefined"
  {
    assert "undefined"[8] == 'd';
  }

  lemma MemberAdmits(text: string)
    requires IsMember(text) && text != "undefined"
    ensures !TypeAdmitsUndefined(text)
  {
    hide SplitFrom, Trim, Atom, Trimmed;
    TrimOfMember(text);
    SplitOfMember(text);
  }

  lemma TrimOfMember(text: string)
    requires IsMember(text)
    ensures Trim(text) == text
  {
    TrimOfTrimmed(text);
  }

  lemma GenericIsMember(generic: string, argument: string)
    requires Piece(generic) && Balanced(argument)
    ensures IsMember(generic + "<" + argument + ">")
  {
    Enclosed('<', argument, '>');
    var tail := ['<'] + argument + ['>'];
    BalancedConcat(generic, tail);
    assert generic + tail == generic + "<" + argument + ">";
    hide Level, Floor, NoTopBar;
    assert !IsSpace('>');
  }
}
