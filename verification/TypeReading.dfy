/** What the schema generator finds in a printed type, form by form. */
module TypeReading {
  import opened JsText
  import opened Schema
  import opened TypeText
  import opened TypeCompiler
  import opened BracketText
  import opened PrintedType

  // ---- cleaning

  lemma ImportHasCall(s: string)
    ensures ImportLength(s) > 0 ==> HasPair(s, 't', '(')
  {
    assert StartsWith(s, "import(") ==> |s| >= 7 && s[5] == "import("[5] && s[6] == "import("[6];
  }

  lemma {:induction false} StripImportsSame(s: string)
    requires !HasPair(s, 't', '(')
    ensures StripImports(s) == s
  {
    if s != "" {
      ImportHasCall(s);
      StripImportsSame(s[1..]);
    }
  }

  lemma CleanNoCall(s: string)
    requires Tidy(s)
    ensures !HasPair(s, 't', '(')
  {
  }

  predicate InParens(s: string) {
    |s| >= 2 && s[0] == '(' && s[|s| - 1] == ')'
  }

  lemma CleanedSame(s: string)
    requires Whole(s) && !InParens(s)
    ensures Cleaned(s) == s
  {
    hide Balanced, StripImports, Trim, TrimStart, TrimEnd;
    CleanNoCall(s);
    StripImportsSame(s);
    TrimOfTrimmed(s);
  }

  /** A pair of parentheses around a whole type makes no difference. */
  lemma CleanedParen(s: string)
    requires Whole(s)
    ensures Cleaned("(" + s + ")") == Cleaned(s)
  {
    ParenPiece(s);
    var t := "(" + s + ")";
    PieceIsWhole(t);
    hide Balanced, Atom, StripImports, Trim, TrimStart, TrimEnd, IsSpace;
    CleanNoCall(t);
    CleanNoCall(s);
    StripImportsSame(t);
    StripImportsSame(s);
    TrimOfTrimmed(t);
    TrimOfTrimmed(s);
    assert t[1..|t| - 1] == s;
  }

  lemma WrapReads(p: Project, t: Ty)
    requires Printable(t)
    ensures Classify(p, Wrap(t)) == Classify(p, Print(t))
  {
    Printed(t);
    hide Print, Whole, Piece, Printable;
    if t.Union? || (t.Lits? && |t.values| > 1) {
      CleanedParen(Print(t));
    }
  }

  // ---- literals

  lemma IndexIs(s: string, c: char, from: nat, at: nat)
    requires from <= at < |s| && s[at] == c && forall i :: from <= i < at ==> s[i] != c
    ensures IndexFrom(s, c, from) == at
  {
  }

  lemma {:induction false} LiteralEnds(s: string)
    ensures LiteralValues(s).Some? ==> s != "" && s[0] == '\'' && s[|s| - 1] == '\''
    decreases |s|
  {
    hide TrimStart, BehindBar;
    if LiteralValues(s).Some? {
      var close := IndexFrom(s, '\'', 1);
      if close < |s| - 1 {
        BehindIsSuffix(s[close + 1..]);
        LiteralEnds(BehindBar(s[close + 1..]).value);
      }
    }
  }

  lemma SuffixTwice(s: string, k: nat, m: nat)
    requires k + m <= |s|
    ensures s[k..][m..] == s[k + m..]
  {
  }

  lemma BehindIsSuffix(rest: string)
    ensures BehindBar(rest).Some? ==> (var more := BehindBar(rest).value; more == rest[|rest| - |more|..])
  {
    hide TrimStart, IsSpace;
    var bar := TrimStart(rest);
    if bar != "" {
      var more := TrimStart(bar[1..]);
      SuffixTwice(rest, |rest| - |bar|, 1);
      SuffixTwice(rest, |rest| - |bar| + 1, |bar| - 1 - |more|);
    }
  }

  lemma LiteralLast(value: string)
    requires LiteralText(value)
    ensures LiteralValues("'" + value + "'") == Some([value])
  {
    var s := "'" + value + "'";
    LiteralIndex(value, "");
    assert s + "" == s && s[1..1 + |value|] == value;
  }

  lemma LiteralUnfold(s: string, close: nat, rest: string)
    requires s != "" && s[0] == '\'' && IndexFrom(s, '\'', 1) == close < |s| - 1
    requires BehindBar(s[close + 1..]) == Some(rest) && LiteralValues(rest).Some?
    ensures LiteralValues(s) == Some([s[1..close]] + LiteralValues(rest).value)
  {
    hide IndexFrom, BehindBar;
  }

  lemma LiteralStep(value: string, rest: string)
    requires LiteralText(value) && rest != "" && !IsSpace(rest[0]) && LiteralValues(rest).Some?
    ensures LiteralValues("'" + value + "' | " + rest) == Some([value] + LiteralValues(rest).value)
  {
    hide *;
    var s := "'" + value + "' | " + rest;
    var tail := " | " + rest;
    LiteralIndex(value, tail);
    assert s == "'" + value + "'" + tail;
    var close := 1 + |value|;
    assert s[0] == '\'' && s[1..close] == value && s[close + 1..] == tail && |s| > close + 1;
    SpacedBar(rest);
    LiteralUnfold(s, close, rest);
  }

  lemma {:induction false} LiteralsRead(values: seq<string>)
    requires values != [] && LiteralTexts(values)
    ensures LiteralValues(Bars(Quoted(values))) == Some(values)
  {
    hide LiteralText, LiteralValues, IsSpace, Bars;
    BarsUnfold(Quoted(values));
    if |values| == 1 {
      LiteralLast(values[0]);
      assert Quoted(values) == ["'" + values[0] + "'"];
      assert values == [values[0]];
    } else {
      var rest := Bars(Quoted(values[1..]));
      LiteralsRead(values[1..]);
      LiteralEnds(rest);
      QuoteNoSpace();
      LiteralStep(values[0], rest);
      assert Quoted(values)[1..] == Quoted(values[1..]);
      assert "'" + values[0] + "'" + " | " + rest == "'" + values[0] + "' | " + rest;
      assert [values[0]] + values[1..] == values;
    }
  }

  lemma QuoteNoSpace()
    ensures !IsSpace('\'')
  {
  }

  lemma SpacedBar(rest: string)
    requires rest != "" && !IsSpace(rest[0])
    ensures BehindBar(" | " + rest) == Some(rest)
  {
    BarNotSpace();
    hide TrimStart, IsSpace;
    assert ("| " + rest)[1..] == " " + rest;
    assert " " + ("| " + rest) == " | " + rest;
    TrimStartSpace("| " + rest);
    TrimStartSpace(rest);
  }

  lemma BarNotSpace()
    ensures !IsSpace('|')
  {
  }

  lemma LiteralIndex(value: string, tail: string)
    requires LiteralText(value)
    ensures IndexFrom("'" + value + "'" + tail, '\'', 1) == 1 + |value|
  {
    IndexIs("'" + value + "'" + tail, '\'', 1, 1 + |value|);
  }

  lemma LiteralsClassified(p: Project, values: seq<string>)
    requires values != [] && LiteralTexts(values)
    ensures Classify(p, Bars(Quoted(values))) == Leaf(EnumNode(values))
    ensures EnumNode(values) == Anything.(kind := "string", enumValues := values)
  {
    var s := Bars(Quoted(values));
    assert EnumNode(values) == Anything.(kind := "string", enumValues := values);
    LiteralsRead(values);
    LiteralEnds(s);
    QuotedPieces(values);
    BarsWhole(Quoted(values));
    CleanedSame(s);
    hide *;
    ClassifiedAs(p, s, s);
    LiteralBranch(p, s);
  }

  lemma ClassifiedAs(p: Project, text: string, cleaned: string)
    requires Cleaned(text) == cleaned
    ensures Classify(p, text) == ClassifyCleaned(p, cleaned)
  {
    hide ClassifyCleaned, Cleaned;
  }

  lemma LiteralBranch(p: Project, s: string)
    requires LiteralValues(s).Some?
    ensures ClassifyCleaned(p, s) == Leaf(EnumNode(LiteralValues(s).value))
  {
    hide LiteralValues, EnumNode;
  }

  // ---- names

  predicate NameChars(s: string) {
    s != "" && forall i :: 0 <= i < |s| ==> IsWordChar(s[i]) || s[i] == '.'
  }

  lemma NamePiece(s: string)
    requires NameChars(s)
    ensures Piece(s) && !InParens(s)
  {
    FlatPiece(s);
  }

  /** None of the tests for brackets, bars and quotes matches. */
  lemma NameBranches(p: Project, s: string)
    requires NameChars(s) && s !in SIMPLE
    ensures ClassifyCleaned(p, s) == ClassifyRest(p, s)
  {
    hide TrimStart, IsSpace, ClassifyRest, SplitFrom, SIMPLE;
    assert IsWordChar(s[0]) || s[0] == '.';
    var last := s[|s| - 1];
    assert IsWordChar(last) || last == '.';
    assert "[]"[1] == ']';
    if EndsWith(s, "undefined") {
      var front := TrimEnd(s[..|s| - 9]);
      assert front != "" ==> front[|front| - 1] == s[|front| - 1];
    }
  }

  lemma NameClassified(p: Project, s: string)
    requires NameChars(s) && s !in SIMPLE
    ensures Classify(p, s) == ClassifyRest(p, s)
  {
    NamePiece(s);
    PieceIsWhole(s);
    hide *;
    CleanedSame(s);
    ClassifiedAs(p, s, s);
    NameBranches(p, s);
  }

  lemma CapitalNotSimple(s: string)
    requires s != "" && IsCapital(s[0])
    ensures s !in SIMPLE && s != "undefined"
  {
  }

  lemma NoDot(s: string)
    requires IsWord(s)
    ensures EnumMember(s) == None
  {
  }

  lemma RestIsName(p: Project, s: string)
    requires s != "" && s[0] != '{' && EnumMember(s) == None
    ensures ClassifyRest(p, s) == Leaf(if IsCapital(s[0]) then RefNode(s) else Anything)
  {
    hide EnumMember, RefNode;
  }

  lemma RestIsMember(p: Project, enum: string, key: string)
    requires CapitalWord(enum) && EnumMember(enum + "." + key) == Some((enum, key))
    ensures ClassifyRest(p, enum + "." + key) == Leaf(MemberNode(p, enum, key))
  {
    hide EnumMember, RefNode, EnumValue;
    assert IsCapital((enum + "." + key)[0]);
  }

  lemma NameRead(p: Project, name: string)
    requires CapitalWord(name)
    ensures Classify(p, name) == Leaf(RefNode(name))
  {
    CapitalNotSimple(name);
    NameClassified(p, name);
    NoDot(name);
    RestIsName(p, name);
  }

  function MemberNode(p: Project, enum: string, key: string): Node {
    if EnumValue(p, enum, key).Some? then Anything.(constant := EnumValue(p, enum, key)) else RefNode(enum + "." + key)
  }

  lemma DotSplits(enum: string, key: string)
    requires CapitalWord(enum) && IsWord(key)
    ensures EnumMember(enum + "." + key) == Some((enum, key))
  {
    var s := enum + "." + key;
    IndexIs(s, '.', 0, |enum|);
    assert s[..|enum|] == enum && s[|enum| + 1..] == key;
  }

  lemma MemberRead(p: Project, enum: string, key: string)
    requires CapitalWord(enum) && IsWord(key)
    ensures Classify(p, enum + "." + key) == Leaf(MemberNode(p, enum, key))
  {
    hide Classify, ClassifyRest, EnumMember, MemberNode, SIMPLE;
    var s := enum + "." + key;
    CapitalNotSimple(s);
    NameClassified(p, s);
    DotSplits(enum, key);
    RestIsMember(p, enum, key);
  }

  lemma UndefinedChars()
    ensures IsWord("undefined") && NameChars("undefined") && "undefined" !in SIMPLE
    ensures "undefined"[0] != '{' && !IsCapital("undefined"[0])
  {
  }

  lemma UndefRead(p: Project)
    ensures Classify(p, "undefined") == Leaf(Anything)
  {
    hide *;
    UndefinedChars();
    NameClassified(p, "undefined");
    NoDot("undefined");
    RestIsName(p, "undefined");
  }

  lemma SimpleRead(p: Project, word: string)
    requires word in SIMPLE
    ensures Classify(p, word) == Leaf(SimpleNode(word))
  {
    SimplePiece(word);
    PieceIsWhole(word);
    assert word[0] != '(' && word[0] != '\'';
    CleanedSame(word);
    LiteralEnds(word);
    hide Cleaned, LiteralValues, SimpleNode, SIMPLE;
  }

  // ---- brackets

  lemma SimpleEnds(s: string)
    requires s in SIMPLE
    ensures s != "" && IsWordChar(s[|s| - 1])
  {
  }

  lemma TidyIsLine(s: string)
    requires s != "" && Tidy(s)
    ensures IsLine(s)
  {
  }

  lemma ArrayRead(p: Project, elem: string)
    requires Piece(elem)
    ensures Classify(p, elem + "[]") == ArrayOf(elem)
  {
    var s := elem + "[]";
    ArrayPiece(elem);
    PieceIsWhole(s);
    CleanedSame(s);
    LiteralEnds(s);
    if s in SIMPLE {
      SimpleEnds(s);
    }
    TidyIsLine(elem);
    assert s[..|s| - 2] == elem && EndsWith(s, "[]");
    hide Piece, Cleaned, LiteralValues, SIMPLE, IsLine;
  }

  lemma RecordGroup(s: string, value: string)
    requires StartsWith(s, RECORD) && |s| >= |RECORD| + 2 && s[|s| - 1] == '>'
    requires TrimStart(s[|RECORD|..|s| - 1]) == value != "" && IsLine(value)
    ensures RecordValue(s) == Some(value)
  {
    hide TrimStart, IsLine, RECORD, StartsWith;
  }

  lemma RecordBody(value: string)
    ensures (var s := RECORD + " " + value + ">";
             && StartsWith(s, RECORD) && |s| >= |RECORD| + 2 && s[|s| - 1] == '>'
             && s[|RECORD|..|s| - 1] == " " + value)
  {
    hide RECORD;
  }

  lemma RecordValueIs(value: string)
    requires Whole(value)
    ensures RecordValue(RECORD + " " + value + ">") == Some(value)
  {
    WholeStarts(value);
    hide *;
    RecordBody(value);
    TrimStartSpace(value);
    RecordGroup(RECORD + " " + value + ">", value);
  }

  lemma WholeStarts(value: string)
    requires Whole(value)
    ensures value != "" && !IsSpace(value[0]) && IsLine(value)
  {
    TidyIsLine(value);
    hide Balanced, Tidy, IsLine, IsSpace;
  }

  lemma RecordBranch(p: Project, s: string)
    requires LiteralValues(s) == None && s !in SIMPLE && ArrayElement(s) == None && RecordValue(s).Some?
    ensures ClassifyCleaned(p, s) == RecordOf(RecordValue(s).value)
  {
    hide LiteralValues, SIMPLE, ArrayElement, RecordValue, BeforeUndefined, PartialName, ClassifyUnion;
  }

  lemma NoArray(s: string)
    requires s != "" && s[|s| - 1] != ']'
    ensures ArrayElement(s) == None
  {
    assert "[]"[1] == ']';
  }

  lemma RecordRead(p: Project, value: string)
    requires Whole(value)
    ensures Classify(p, RECORD + " " + value + ">") == RecordOf(value)
  {
    var s := RECORD + " " + value + ">";
    RecordPiece(value);
    PieceIsWhole(s);
    assert s[0] == 'R' && s[|s| - 1] == '>';
    CleanedSame(s);
    LiteralEnds(s);
    CapitalNotSimple(s);
    RecordValueIs(value);
    NoArray(s);
    hide *;
    RecordBranch(p, s);
    ClassifiedAs(p, s, s);
  }

  lemma PartialTests(name: string)
    requires IsWord(name)
    ensures (var s := PartialText(name);
             && PartialName(s) == Some(name) && ArrayElement(s) == None && RecordValue(s) == None && BeforeUndefined(s) == None
             && EnumMember(s) == None && '|' !in s && s != "" && IsCapital(s[0]) && s[|s| - 1] == '>')
  {
    var s := PartialText(name);
    assert s[|s| - 1] == '>' && "undefined"[8] == 'd' && "[]"[1] == ']';
    assert s[0] == 'P' && RECORD[0] == 'R';
    assert s[8..|s| - 1] == name && "Partial<" <= s;
    NotADot(s, 7);
    hide IsSpace, TrimEnd, TrimStart;
  }

  lemma NotADot(s: string, k: nat)
    requires k < |s| && s[k] == '<' && (forall i :: 0 <= i < |s| ==> s[i] != '.')
    ensures EnumMember(s) == None
  {
  }

  lemma PartialBranch(p: Project, s: string, name: string)
    requires LiteralValues(s) == None && s !in SIMPLE && ArrayElement(s) == None && RecordValue(s) == None
    requires BeforeUndefined(s) == None && PartialName(s) == Some(name)
    ensures ClassifyCleaned(p, s) == if name in p.interfaces then PartialOf(name) else ClassifyUnion(p, s)
  {
    hide LiteralValues, SIMPLE, ArrayElement, RecordValue, BeforeUndefined, PartialName, ClassifyUnion;
  }

  lemma NoUnion(p: Project, s: string)
    requires '|' !in s
    ensures ClassifyUnion(p, s) == ClassifyRest(p, s)
  {
    hide ClassifyRest, SplitFrom, LiveParts;
  }

  lemma PartialRead(p: Project, name: string)
    requires IsWord(name)
    ensures Classify(p, PartialText(name)) == if name in p.interfaces then PartialOf(name) else Leaf(RefNode(PartialText(name)))
  {
    var s := PartialText(name);
    PartialPiece(name);
    PieceIsWhole(s);
    assert s[0] == 'P' && s[|s| - 1] == '>';
    CleanedSame(s);
    LiteralEnds(s);
    CapitalNotSimple(s);
    hide *;
    PartialTests(name);
    PartialBranch(p, s, name);
    NoUnion(p, s);
    RestIsName(p, s);
    ClassifiedAs(p, s, s);
  }

  // ---- unions

  lemma {:induction false} BarsEnd(parts: seq<string>) returns (front: string)
    requires |parts| >= 2
    ensures Bars(parts) == front + parts[|parts| - 1] && front != "" && front[|front| - 1] == ' '
    ensures '|' in front && |parts[0]| < |front|
  {
    if |parts| == 2 {
      front := parts[0] + " | ";
      assert front[|front| - 2] == '|';
    } else {
      var rest := BarsEnd(parts[1..]);
      front := parts[0] + " | " + rest;
      assert front + parts[|parts| - 1] == parts[0] + " | " + (rest + parts[|parts| - 1]);
      assert front[|parts[0]| + 1] == '|';
    }
  }

  lemma {:induction false} TrimEndConcat(a: string, b: string)
    requires b != "" && !IsSpace(b[0])
    ensures TrimEnd(b) != "" && TrimEnd(a + b) == a + TrimEnd(b)
  {
    var s := a + b;
    if IsSpace(b[|b| - 1]) {
      assert s[|s| - 1] == b[|b| - 1] && s[..|s| - 1] == a + b[..|b| - 1];
      TrimEndConcat(a, b[..|b| - 1]);
    } else {
      TrimOfTrimmed(b);
      assert s[|s| - 1] == b[|b| - 1];
    }
  }

  lemma FlatLevel(s: string)
    requires Flat(s)
    ensures Level(s) == 0
  {
    FlatIsAtom(s);
  }

  /** A member cannot end in a bar and flat text. */
  lemma NoBarNearEnd(front: string, flat: string)
    requires Flat(flat)
    ensures !Atom(front + "|" + flat)
  {
    hide Level, Floor, NoTopBar;
    ConcatAssoc(front, "|", flat);
    LevelConcat(front, "|" + flat);
    LevelConcat("|", flat);
    OneChar('|');
    FlatLevel(flat);
    NoTopBarConcat(front, "|" + flat, 0);
    NoTopBarConcat("|", flat, 0);
  }

  lemma SpaceIsFlat(s: string)
    requires AllSpace(s)
    ensures Flat(s)
  {
  }

  lemma UndefinedIsFlat()
    ensures Flat("undefined") && ' ' !in "undefined"
  {
  }

  /** A member that ends in `undefined` has no bar before it. */
  lemma MemberBeforeUndefined(x: string)
    requires x != "" && !IsSpace(x[0]) && Atom(x + "undefined")
    ensures TrimEnd(x) != "" && TrimEnd(x)[|TrimEnd(x)| - 1] != '|'
  {
    hide Atom, IsSpace, Flat, TrimEnd;
    TrimEndConcat("", x);
    var r := TrimEnd(x);
    TrimEndCutsSpace(x);
    SpaceIsFlat(x[|r|..]);
    UndefinedIsFlat();
    if r[|r| - 1] == '|' {
      FlatConcat(x[|r|..], "undefined");
      assert r == r[..|r| - 1] + "|" && x == r + x[|r|..];
      assert x + "undefined" == r[..|r| - 1] + "|" + (x[|r|..] + "undefined");
      NoBarNearEnd(r[..|r| - 1], x[|r|..] + "undefined");
    }
  }

  lemma FlatConcat(a: string, b: string)
    requires Flat(a) && Flat(b)
    ensures Flat(a + b)
  {
  }

  lemma NoUndefinedEnd(front: string, last: string)
    requires IsMember(last) && last != "undefined" && front != "" && front[|front| - 1] == ' '
    ensures BeforeUndefined(front + last) == None
  {
    var s := front + last;
    UndefinedIsFlat();
    hide Atom, IsSpace, Flat, TrimEnd;
    assert |last| < 9 <= |s| ==> s[|s| - 9..][8 - |last|] == ' ';
    assert EndsWith(s, "undefined") ==> |last| >= 9;
    if EndsWith(s, "undefined") {
      assert s[|s| - 9..] == last[|last| - 9..];
      var x := last[..|last| - 9];
      assert last == x + "undefined";
      MemberBeforeUndefined(x);
      TrimEndConcat(front, x);
      assert s[..|s| - 9] == front + x;
    }
  }

  lemma NoPartial(s: string)
    requires '|' in s
    ensures PartialName(s) == None
  {
    var i :| 0 <= i < |s| && s[i] == '|';
    assert forall k :: 0 <= k < 8 ==> "Partial<"[k] != '|';
    assert StartsWith(s, "Partial<") ==> forall k :: 0 <= k < 8 ==> s[k] == "Partial<"[k];
    assert 8 <= i < |s| - 1 ==> s[8..|s| - 1][i - 8] == '|';
  }

  lemma SimpleNoBar(s: string)
    requires '|' in s
    ensures s !in SIMPLE
  {
  }

  lemma NoRecord(s: string)
    requires Splittable(s)
    ensures RecordValue(s) == None
  {
  }

  /** None of the tests before the one for unions matches. */
  lemma UnionBranch(p: Project, s: string)
    requires Splittable(s) && '|' in s && BeforeUndefined(s) == None
    ensures ClassifyCleaned(p, s) == ClassifyUnion(p, s)
  {
    hide LiteralValues, ClassifyUnion, BeforeUndefined, PartialName, RecordValue, SIMPLE, IsLine;
    LiteralEnds(s);
    NoPartial(s);
    SimpleNoBar(s);
    NoRecord(s);
  }

  /** What the code makes of the members of a union. */
  function UnionShape(live: seq<string>): Shape {
    if |live| == 1 then Same(live[0]) else OneOf(live)
  }

  lemma {:induction false} LastIsLive(parts: seq<string>)
    requires parts != [] && parts[|parts| - 1] != "undefined" && parts[|parts| - 1] != ""
    ensures LiveParts(parts) != []
  {
    if |parts| > 1 {
      LastIsLive(parts[1..]);
    }
  }

  lemma UnionMembers(p: Project, s: string, parts: seq<string>)
    requires '|' in s && s[0] != '\'' && SplitUnion(s) == parts && |parts| >= 2 && LiveParts(parts) != []
    ensures ClassifyUnion(p, s) == UnionShape(LiveParts(parts))
  {
    PartLengths(s, 0, "");
    LivePartsAreParts(parts, |s|);
    hide SplitFrom, LiveParts, ClassifyRest;
    var live := LiveParts(parts);
    assert live[0] in parts;
  }

  lemma PiecesAreMembers(parts: seq<string>)
    requires AllPiece(parts)
    ensures AllMembers(parts)
  {
  }

  lemma UnionRead(p: Project, parts: seq<string>)
    requires |parts| >= 2 && AllPiece(parts) && Splittable(Bars(parts)) && parts[|parts| - 1] != "undefined"
    ensures Classify(p, Bars(parts)) == UnionShape(LiveParts(parts)) && LiveParts(parts) != []
  {
    var s := Bars(parts);
    var front := BarsEnd(parts);
    var last := parts[|parts| - 1];
    PiecesAreMembers(parts);
    BarsWhole(parts);
    assert IsMember(last);
    hide Whole, Piece, Atom, Trimmed;
    assert !InParens(s);
    CleanedSame(s);
    ClassifiedAs(p, s, s);
    NoUndefinedEnd(front, last);
    UnionBranch(p, s);
    SplitBars(parts, false);
    LastIsLive(parts);
    UnionMembers(p, s, parts);
  }

  // ---- inline objects

  lemma ObjectRead(p: Project, s: string)
    requires Piece(s) && s[0] == '{' && s[|s| - 1] == '}'
    ensures Classify(p, s) == Inline(InlineFields(s))
  {
    PieceIsWhole(s);
    CleanedSame(s);
    ClassifiedAs(p, s, s);
    SplitOfMember(s);
    LiteralEnds(s);
    NoArray(s);
    ObjectBranch(p, s);
    hide *;
  }

  lemma BraceTests(s: string)
    requires s != "" && s[0] == '{' && s[|s| - 1] == '}'
    ensures BeforeUndefined(s) == None && RecordValue(s) == None && PartialName(s) == None && EnumMember(s) == None
    ensures s !in SIMPLE
  {
    assert "undefined"[8] == 'd';
  }

  lemma OneLivePart(s: string)
    ensures s != "undefined" && s != "" ==> LiveParts([s]) == [s]
  {
    assert [s][1..] == [];
  }

  lemma ObjectRest(p: Project, s: string)
    requires s != "" && s[0] == '{' && s[|s| - 1] == '}' && EnumMember(s) == None
    ensures ClassifyRest(p, s) == Inline(InlineFields(s))
  {
    hide EnumMember, InlineFields;
  }

  lemma ObjectBranch(p: Project, s: string)
    requires s != "" && s[0] == '{' && s[|s| - 1] == '}' && SplitUnion(s) == [s]
    requires LiteralValues(s) == None && ArrayElement(s) == None
    ensures ClassifyCleaned(p, s) == Inline(InlineFields(s))
  {
    hide LiteralValues, ArrayElement, RecordValue, BeforeUndefined, PartialName, SIMPLE, SplitFrom, InlineFields, LiveParts;
    hide EnumMember, ClassifyRest;
    BraceTests(s);
    OneLivePart(s);
    ObjectRest(p, s);
  }
}
