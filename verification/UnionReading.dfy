/** Exactly which printed unions the schema generator reads as unions. */
module UnionReading {
  import opened JsText
  import opened TypeText
  import opened TypeCompiler
  import opened BracketText
  import opened PrintedType
  import opened TypeReading
  import opened TypeRoundTrip

  // ---- opening parentheses are never lost by splitting, but are by stripping

  function Opened(s: string): nat {
    if s == "" then 0 else (if s[0] == '(' then 1 else 0) + Opened(s[1..])
  }

  function AllOpened(parts: seq<string>): nat {
    if parts == [] then 0 else Opened(parts[0]) + AllOpened(parts[1..])
  }

  lemma {:induction false} OpenedConcat(a: string, b: string)
    ensures Opened(a + b) == Opened(a) + Opened(b)
  {
    if a == "" {
      assert a + b == b;
    } else {
      assert (a + b)[1..] == a[1..] + b;
      OpenedConcat(a[1..], b);
    }
  }

  lemma {:induction false} SpaceOpened(s: string)
    requires AllSpace(s)
    ensures Opened(s) == 0
  {
    if s != "" {
      SpaceOpened(s[1..]);
    }
  }

  lemma TrimOpened(s: string)
    ensures Opened(Trim(s)) == Opened(s)
  {
    hide AllSpace, TrimStart, TrimEnd;
    var t := TrimStart(s);
    var r := TrimEnd(t);
    TrimStartCutsSpace(s);
    SpaceOpened(s[..|s| - |t|]);
    OpenedConcat(s[..|s| - |t|], t);
    assert s == s[..|s| - |t|] + t;
    TrimEndCutsSpace(t);
    SpaceOpened(t[|r|..]);
    OpenedConcat(r, t[|r|..]);
    assert t == r + t[|r|..];
  }

  lemma {:induction false} SplitOpened(s: string, depth: int, current: string)
    ensures AllOpened(SplitFrom(s, depth, current)) == Opened(current) + Opened(s)
    decreases |s|
  {
    hide Trim;
    if s == "" {
      TrimOpened(current);
      if Trim(current) != "" {
        assert [Trim(current)][1..] == [];
      }
    } else if s[0] == '|' && depth == 0 {
      TrimOpened(current);
      SplitOpened(s[1..], 0, "");
      var rest := SplitFrom(s[1..], 0, "");
      assert ([Trim(current)] + rest)[1..] == rest;
    } else {
      SplitOpened(s[1..], depth + Bracket(s[0]), current + [s[0]]);
      OpenedConcat(current, [s[0]]);
      assert [s[0]][1..] == "";
    }
  }

  lemma {:induction false} LiveOpened(parts: seq<string>)
    ensures AllOpened(LiveParts(parts)) == AllOpened(parts)
  {
    if parts != [] {
      LiveOpened(parts[1..]);
      UndefinedOpened();
      var rest := LiveParts(parts[1..]);
      if parts[0] == "undefined" || parts[0] == "" {
        assert LiveParts(parts) == rest;
      } else {
        assert ([parts[0]] + rest)[1..] == rest;
      }
    }
  }

  lemma UndefinedOpened()
    ensures Opened("undefined") == 0
  {
    var s := "undefined";
    NoneOpened(s);
  }

  lemma {:induction false} NoneOpened(s: string)
    requires '(' !in s
    ensures Opened(s) == 0
  {
    if s != "" {
      assert s[0] in s;
      NoneOpened(s[1..]);
    }
  }

  lemma {:induction false} StripOpened(s: string)
    ensures Opened(StripParens(s)) <= Opened(s)
    decreases |s|
  {
    if InParens(s) {
      MiddleOpened(s);
      TrimOpened(s[1..|s| - 1]);
      StripOpened(Trim(s[1..|s| - 1]));
    }
  }

  lemma MiddleOpened(s: string)
    requires InParens(s)
    ensures Opened(s[1..|s| - 1]) + 1 == Opened(s)
  {
    assert s[1..] == s[1..|s| - 1] + ")";
    OpenedConcat(s[1..|s| - 1], ")");
    NoneOpened(")");
  }

  /** The outer parentheses that are stripped are lost to the parts. */
  lemma StrippedOpened(s: string)
    requires Whole(s) && InParens(s)
    ensures Opened(Cleaned(s)) < Opened(s)
  {
    hide Balanced, TrimStart, TrimEnd, StripImports, Opened;
    CleanNoCall(s);
    StripImportsSame(s);
    TrimOfTrimmed(s);
    MiddleOpened(s);
    TrimOpened(s[1..|s| - 1]);
    StripOpened(Trim(s[1..|s| - 1]));
  }

  // ---- the two directions

  /** What a text must look like for its members to be found. */
  lemma OnlyUnions(p: Project, s: string)
    requires ClassifyCleaned(p, s).OneOf?
    ensures ClassifyCleaned(p, s).texts == LiveParts(SplitUnion(s))
    ensures s != "" && s[0] != '\'' && ArrayElement(s) == None && RecordValue(s) == None
  {
    hide LiteralValues, SIMPLE, ArrayElement, RecordValue, BeforeUndefined, PartialName, SplitFrom, LiveParts, EnumMember, InlineFields;
  }

  lemma BracketForms(s: string)
    requires Tidy(s) && '|' in s
    ensures EndsWith(s, "[]") ==> ArrayElement(s).Some?
    ensures StartsWith(s, RECORD) && s[|s| - 1] == '>' ==> RecordValue(s).Some?
  {
    hide TrimStart;
    assert forall k :: 0 <= k < |RECORD| ==> RECORD[k] != '|';
    assert StartsWith(s, RECORD) ==> forall k :: 0 <= k < |RECORD| ==> s[k] == RECORD[k];
  }

  lemma ReadImpliesSplittable(p: Project, parts: seq<string>)
    requires |parts| >= 2 && AllPiece(parts)
    requires Classify(p, Bars(parts)) == OneOf(LiveParts(parts))
    ensures Splittable(Bars(parts))
  {
    var s := Bars(parts);
    BarsWhole(parts);
    WholeIsTidy(s);
    PiecesAreMembers(parts);
    var front := BarsEnd(parts);
    BracketForms(s);
    var c := Cleaned(s);
    OnlyUnions(p, c);
    SplitBars(parts, false);
    LiveOpened(SplitUnion(s));
    LiveOpened(SplitUnion(c));
    SplitOpened(s, 0, "");
    SplitOpened(c, 0, "");
    hide Whole, Piece, Opened, AllOpened, ClassifyCleaned, ArrayElement, RecordValue, SplitFrom, LiveParts, Bars;
    if InParens(s) {
      StrippedOpened(s);
    } else {
      CleanedSame(s);
    }
  }

  lemma WholeIsTidy(s: string)
    ensures Whole(s) ==> Tidy(s)
  {
  }

  /** A union of two or more live members is read as that union exactly when its text does not
      begin with a literal, end in `[]`, or look like one record or one parenthesis. */
  lemma UnionReadExactly(p: Project, parts: seq<string>)
    requires |parts| >= 2 && AllPiece(parts) && parts[|parts| - 1] != "undefined" && |LiveParts(parts)| >= 2
    ensures Classify(p, Bars(parts)) == OneOf(LiveParts(parts)) <==> Splittable(Bars(parts))
  {
    hide Classify, Splittable, Piece, LiveParts, Bars;
    if Splittable(Bars(parts)) {
      UnionRead(p, parts);
    }
    if Classify(p, Bars(parts)) == OneOf(LiveParts(parts)) {
      ReadImpliesSplittable(p, parts);
    }
  }

  // ---- the schemas

  predicate Branchless(shape: Shape) {
    match shape
    case Leaf(node) => node.oneOf == []
    case ArrayOf(_) => true
    case RecordOf(_) => true
    case _ => false
  }

  /** An earlier test matches, and its result has no branches. */
  lemma NoBranches(p: Project, s: string)
    requires s != "" && '|' in s && BeforeUndefined(s) == None
    requires s[0] == '\'' || ArrayElement(s).Some? || RecordValue(s).Some?
    ensures Branchless(ClassifyCleaned(p, s))
  {
    hide LiteralValues, ArrayElement, RecordValue, BeforeUndefined, PartialName, SplitFrom, LiveParts, EnumMember, InlineFields;
    NoPartial(s);
  }

  lemma BranchlessCompiles(p: Project, s: string, depth: nat, stack: nat)
    requires Branchless(Classify(p, s))
    ensures Compile(p, s, depth, stack).Ok? ==> Compile(p, s, depth, stack).value.oneOf == []
  {
    hide Classify;
  }

  lemma Unsplittable(s: string)
    requires Tidy(s) && '|' in s && !InParens(s) && !Splittable(s)
    ensures s != "" && (s[0] == '\'' || ArrayElement(s).Some? || RecordValue(s).Some?)
  {
    BracketForms(s);
    hide Tidy, ArrayElement, RecordValue;
  }

  lemma NoBranchesCompiled(p: Project, s: string, depth: nat, stack: nat)
    requires Whole(s) && !InParens(s) && '|' in s && BeforeUndefined(s) == None && !Splittable(s)
    ensures Compile(p, s, depth, stack).Ok? ==> Compile(p, s, depth, stack).value.oneOf == []
  {
    hide *;
    WholeIsTidy(s);
    Unsplittable(s);
    CleanedSame(s);
    ClassifiedAs(p, s, s);
    NoBranches(p, s);
    BranchlessCompiles(p, s, depth, stack);
  }

  lemma UnionText(members: seq<Ty>)
    requires |members| >= 2 && AllPrintable(members) && !members[|members| - 1].Undef?
    ensures (var text := Bars(Wraps(members)); Whole(text) && '|' in text && BeforeUndefined(text) == None)
  {
    hide *;
    AllPrinted(members);
    LastPrintable(members);
    WrapUndefined(members[|members| - 1]);
    WrapsAt(members, |members| - 1);
    BarredText(Wraps(members));
  }

  lemma BarredText(parts: seq<string>)
    requires |parts| >= 2 && AllPiece(parts) && parts[|parts| - 1] != "undefined"
    ensures Whole(Bars(parts)) && '|' in Bars(parts) && BeforeUndefined(Bars(parts)) == None
  {
    hide *;
    BarsWhole(parts);
    var front := BarsEnd(parts);
    PiecesAreMembers(parts);
    LastMember(parts);
    NoUndefinedEnd(front, parts[|parts| - 1]);
  }

  lemma LastMember(parts: seq<string>)
    requires parts != [] && AllMembers(parts)
    ensures IsMember(parts[|parts| - 1])
  {
    hide IsMember;
  }

  lemma {:induction false} WrapsAt(ts: seq<Ty>, i: nat)
    requires i < |ts|
    ensures Wraps(ts)[i] == Wrap(ts[i])
  {
    hide Wrap;
    if i > 0 {
      WrapsAt(ts[1..], i - 1);
    }
  }

  /** Unless its text begins and ends with a parenthesis, such a union gets its own schema
      exactly when it is splittable, its members fit into the nesting limit and the interfaces
      inlined for them compile. */
  lemma UnionSchemaExactly(p: Project, members: seq<Ty>, depth: nat, stack: nat)
    requires |members| >= 2 && AllPrintable(members) && !members[|members| - 1].Undef? && |Live(members)| >= 2
    requires !InParens(Print(Union(members)))
    ensures Compile(p, Print(Union(members)), depth, stack) == Ok(Sem(p, Union(members), stack))
       <==> Splittable(Print(Union(members))) && depth <= DEPTH_LIMIT && FitsAll(members, depth + 1) && AllReady(p, members, stack)
  {
    hide Classify, Compile, Splittable, Printable, Wrap, Wraps, Bars, Sem, SemAll, Live, Whole, BeforeUndefined, Fits, FitsAll, AllReady;
    var text := Print(Union(members));
    LiveCount(p, members, stack);
    UnionText(members);
    if Splittable(text) {
      ReadsUnion(p, members, text, depth, stack);
    } else {
      NoBranchesCompiled(p, text, depth, stack);
    }
    SemOfUnion(p, members, stack);
  }

  lemma SemOfUnion(p: Project, members: seq<Ty>, stack: nat)
    requires |SemAll(p, members, stack)| >= 2
    ensures Sem(p, Union(members), stack) == UnionNode(SemAll(p, members, stack)) && |Sem(p, Union(members), stack).oneOf| >= 2
  {
    hide SemAll;
  }

  /** `A | B[]` does not become a union with an array. */
  lemma TrailingArrayTakesTheUnion(p: Project, stack: nat)
    ensures Print(Union([Name("A"), Arr(Name("B"))])) == "A | B[]"
    ensures Compile(p, "A | B[]", 0, stack) != Ok(Sem(p, Union([Name("A"), Arr(Name("B"))]), stack))
  {
    var a, b := Name("A"), Arr(Name("B"));
    ExamplePrintable(a, b);
    PairOfMembers(a, b);
    hide *;
    UnionSchemaExactly(p, [a, b], 0, stack);
  }

  lemma LastOfMembers(b: Ty)
    requires Printable(b) && Fits(b, 1) && !b.Undef?
    ensures AllPrintable([b]) && FitsAll([b], 1) && Live([b]) == [b] && Wraps([b]) == [Wrap(b)]
  {
    hide Printable, Fits, Wrap;
    assert [b][1..] == [];
  }

  lemma FirstOfMembers(a: Ty, rest: seq<Ty>)
    requires Printable(a) && Fits(a, 1) && !a.Undef? && AllPrintable(rest) && FitsAll(rest, 1)
    ensures AllPrintable([a] + rest) && FitsAll([a] + rest, 1) && Live([a] + rest) == [a] + Live(rest)
    ensures Wraps([a] + rest) == [Wrap(a)] + Wraps(rest)
  {
    hide Printable, Fits, Wrap;
    assert ([a] + rest)[1..] == rest;
  }

  lemma PairOfMembers(a: Ty, b: Ty)
    requires a == Name("A") && b == Arr(Name("B"))
    ensures AllPrintable([a, b]) && FitsAll([a, b], 1) && Live([a, b]) == [a, b] && 0 <= DEPTH_LIMIT
    ensures Print(Union([a, b])) == "A | B[]"
  {
    ExamplePrintable(a, b);
    hide Printable, Fits, Wrap, CapitalWord, AllPrintable, FitsAll, Live, Wraps, Bars;
    LastOfMembers(b);
    FirstOfMembers(a, [b]);
    assert [a] + [b] == [a, b];
    assert ["A"] + ["B[]"] == ["A", "B[]"];
    BarsSnoc(["A"], "B[]");
    BarsUnfold(["A"]);
    assert "A" + " | " + "B[]" == "A | B[]";
  }

  lemma ExamplePrintable(a: Ty, b: Ty)
    requires a == Name("A") && b == Arr(Name("B"))
    ensures Printable(a) && Printable(b) && Fits(a, 1) && Fits(b, 1) && Wrap(a) == "A" && Wrap(b) == "B[]"
    ensures !Splittable("A | B[]") && !InParens("A | B[]")
  {
    assert EndsWith("A | B[]", "[]");
  }
}
