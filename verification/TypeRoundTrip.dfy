/** Compiling the printed text of a type gives the schema of the type. */
module TypeRoundTrip {
  import opened JsText
  import opened Schema
  import opened TypeText
  import opened TypeCompiler
  import opened BracketText
  import opened PrintedType
  import opened TypeReading
  import opened Properties

  // ---- the meaning of a type

  function Live(members: seq<Ty>): (r: seq<Ty>)
    ensures |r| <= |members|
  {
    if members == [] then []
    else (if members[0].Undef? then [] else [members[0]]) + Live(members[1..])
  }

  /** An interface inlined for `Partial<>`: all its properties and none required. */
  function PartialNode(p: Project, props: seq<Prop>, stack: nat): Node {
    if stack == 0 then Anything else Anything.(kind := "object", properties := Outline(p, props, stack - 1))
  }

  /** A union that admits `undefined` says so by being left out of `required`, not in its schema. */
  function UnionNode(branches: seq<Node>): Node {
    if |branches| == 0 then Anything else if |branches| == 1 then branches[0] else OneOfNode(branches)
  }

  function Sem(p: Project, t: Ty, stack: nat): Node
    decreases t, 0
  {
    match t
    case Simple(word) => SimpleNode(word)
    case Undef => Anything
    case Name(name) => RefNode(name)
    case Member(enum, key) => MemberNode(p, enum, key)
    case Lits(values) => EnumNode(values)
    case Arr(elem) => ArrayNode(Sem(p, elem, stack))
    case Rec(value) => RecordNode(Sem(p, value, stack))
    case Partial(name) =>
      if name in p.interfaces then PartialNode(p, p.interfaces[name], stack) else RefNode(PartialText(name))
    case Union(members) => UnionNode(SemAll(p, members, stack))
    case Obj(fields) => SemFields(p, fields, EMPTY_OBJECT, stack)
  }

  /** The meanings of the members other than `undefined`. */
  function SemAll(p: Project, ts: seq<Ty>, stack: nat): seq<Node>
    decreases ts, 1
  {
    if ts == [] then []
    else (if ts[0].Undef? then [] else [Sem(p, ts[0], stack)]) + SemAll(p, ts[1..], stack)
  }

  predicate Admits(t: Ty) {
    t.Undef? || (t.Union? && Undef in t.members)
  }

  function SemFields(p: Project, fields: seq<FieldTy>, sofar: Node, stack: nat): Node
    decreases fields, 1
  {
    if fields == [] then sofar
    else
      var f := fields[0];
      SemFields(p, fields[1..],
                sofar.(properties := SetProperty(sofar.properties, f.name, Sem(p, f.ty, stack)),
                       required := if f.optional || Admits(f.ty) then sofar.required else sofar.required + [f.name]), stack)
  }

  /** The nesting that the code counts stays within its limit when it starts at `depth`. */
  predicate Fits(t: Ty, depth: nat)
    decreases t, 2
  {
    && depth <= DEPTH_LIMIT
    && match t
       case Arr(elem) => Fits(elem, depth + 1)
       case Rec(value) => Fits(value, depth + 1)
       case Union(members) => FitsUnion(members, depth)
       case Obj(fields) => FitFields(fields)
       case _ => true
  }

  predicate FitsAll(ts: seq<Ty>, depth: nat)
    decreases ts, 0
  {
    ts == [] || ((ts[0].Undef? || Fits(ts[0], depth)) && FitsAll(ts[1..], depth))
  }

  /** Each trailing `undefined` costs one level, and so do the branches. */
  predicate FitsUnion(ts: seq<Ty>, depth: nat)
    decreases ts, 1
  {
    && depth <= DEPTH_LIMIT
    && if |ts| == 0 then true
       else if |ts| == 1 then Fits(ts[0], depth)
       else if ts[|ts| - 1].Undef? then FitsUnion(ts[..|ts| - 1], depth + 1)
       else FitsAll(ts, depth + 1)
  }

  predicate FitFields(fields: seq<FieldTy>)
    decreases fields, 1
  {
    fields == [] || (Fits(fields[0].ty, 0) && FitFields(fields[1..]))
  }

  /** The interface compiles when it is inlined. */
  predicate Expands(p: Project, props: seq<Prop>, stack: nat) {
    stack > 0 && AllCompile(p, props, stack - 1)
  }

  /** All declared interfaces that are inlined for `Partial<>` compile. */
  predicate Ready(p: Project, t: Ty, stack: nat)
    decreases t, 0
  {
    match t
    case Arr(elem) => Ready(p, elem, stack)
    case Rec(value) => Ready(p, value, stack)
    case Partial(name) => name in p.interfaces ==> Expands(p, p.interfaces[name], stack)
    case Union(members) => AllReady(p, members, stack)
    case Obj(fields) => FieldsReady(p, fields, stack)
    case _ => true
  }

  predicate AllReady(p: Project, ts: seq<Ty>, stack: nat)
    decreases ts, 1
  {
    ts == [] || (Ready(p, ts[0], stack) && AllReady(p, ts[1..], stack))
  }

  predicate FieldsReady(p: Project, fields: seq<FieldTy>, stack: nat)
    decreases fields, 1
  {
    fields == [] || (Ready(p, fields[0].ty, stack) && FieldsReady(p, fields[1..], stack))
  }

  // ---- members

  lemma WrapUndefined(t: Ty)
    requires Printable(t)
    ensures Wrap(t) == "undefined" <==> t.Undef?
    ensures Wrap(t) != ""
  {
    Printed(t);
    if t.Union? || (t.Lits? && |t.values| > 1) {
      assert Wrap(t)[0] == '(';
    } else if t.Lits? {
      assert Wrap(t) == "'" + t.values[0] + "'";
      assert Wrap(t)[0] == '\'';
    } else {
      PrintUndefined(t);
    }
  }

  lemma PrintUndefined(t: Ty)
    requires Printable(t) && !t.Union? && !t.Lits?
    ensures Print(t) == "undefined" <==> t.Undef?
  {
    hide Wrap, Pieces, Printable;
    UndefinedChars();
    match t {
      case Simple(word) => assert "undefined" !in SIMPLE by { UndefinedChars(); } SimpleMeans(t);
      case Undef =>
      case Name(name) => CapitalMember(t);
      case Member(enum, key) => CapitalMember(t);
      case Arr(elem) => assert Print(t)[|Print(t)| - 1] == ']'; assert "undefined"[8] == 'd';
      case Rec(value) => assert Print(t)[0] == 'R';
      case Partial(name) => assert Print(t)[0] == 'P'; assert "undefined"[0] == 'u';
      case Obj(fields) => assert Print(t)[0] == '{';
    }
  }

  lemma SimpleMeans(t: Ty)
    requires Printable(t) && t.Simple?
    ensures t.word in SIMPLE
  {
  }

  lemma CapitalMember(t: Ty)
    requires Printable(t) && (t.Name? || t.Member?)
    ensures Print(t) != "" && IsCapital(Print(t)[0])
  {
  }

  lemma {:induction false} LiveWraps(ts: seq<Ty>)
    requires AllPrintable(ts)
    ensures LiveParts(Wraps(ts)) == Wraps(Live(ts))
    ensures "undefined" in Wraps(ts) <==> Undef in ts
    ensures AllPrintable(Live(ts))
    decreases ts, 0
  {
    hide Wrap, Printable;
    if ts != [] {
      WrapUndefined(ts[0]);
      LiveWraps(ts[1..]);
      assert ts == [ts[0]] + ts[1..];
      assert Wraps(ts) == [Wrap(ts[0])] + Wraps(ts[1..]);
      assert Wraps(ts)[1..] == Wraps(ts[1..]);
      var rest := Live(ts[1..]);
      if ts[0].Undef? {
        assert Live(ts) == rest;
      } else {
        var live := [ts[0]] + rest;
        assert Live(ts) == live && live[1..] == rest;
        assert Wraps(live) == [Wrap(ts[0])] + Wraps(rest);
      }
    }
  }

  lemma {:induction false} QuotedNotUndefined(values: seq<string>)
    ensures "undefined" !in Quoted(values)
  {
    if values != [] {
      QuotedNotUndefined(values[1..]);
      assert ("'" + values[0] + "'")[0] == '\'';
    }
  }

  /** The exported test says of a printed type what the tree says. */
  lemma AdmitsRead(t: Ty)
    requires Printable(t)
    ensures TypeAdmitsUndefined(Print(t)) <==> Admits(t)
  {
    hide Wraps, Quoted, SplitFrom, Trim, Piece, Whole, Bars, Printable, Wrap;
    Printed(t);
    WholeTrimmed(Print(t));
    PiecesAreMembers(Parts(t));
    SplitBars(Parts(t), false);
    match t {
      case Lits(values) => QuotedNotUndefined(values);
      case Union(members) => UnionMeans(t); LiveWraps(members);
      case _ => PrintUndefined(t);
    }
  }

  lemma WholeTrimmed(s: string)
    requires Whole(s)
    ensures Trim(s) == s && IsLine(s) && s != "" && !IsSpace(s[0]) && '*' !in s
  {
    TrimOfTrimmed(s);
    TidyIsLine(s);
  }

  lemma UnionMeans(t: Ty)
    requires Printable(t) && t.Union?
    ensures AllPrintable(t.members) && |t.members| >= 2 && Readable(t.members)
  {
  }

  // ---- inline objects

  /** What the fields of a printed object are. */
  function Fields(fields: seq<FieldTy>): (r: seq<Field>)
    ensures |r| == |fields|
  {
    if fields == [] then []
    else [Field(fields[0].name, fields[0].optional, Print(fields[0].ty))] + Fields(fields[1..])
  }

  lemma {:induction false} NoComments(s: string)
    requires '*' !in s
    ensures StripComments(s) == s
  {
    if s != "" {
      assert |s| >= 2 ==> s[1] in s;
      NoComments(s[1..]);
      assert [s[0]] + s[1..] == s;
    }
  }

  lemma BracePositions(inner: string)
    ensures (var s := "{" + inner + "}"; LastIndex(s, '}') == |s| - 1 && IndexFrom(s, '{', 0) == 0 && s[1..|s| - 1] == inner)
  {
  }

  lemma FieldsBetween(s: string, inner: string)
    requires StripComments(s) == s && |s| >= 2 && IndexFrom(s, '{', 0) == 0 && LastIndex(s, '}') == |s| - 1
    requires s[1..|s| - 1] == inner
    ensures InlineFields(s) == FieldsOf(inner)
  {
    hide StripComments, LastIndex, IndexFrom, FieldsOf;
  }

  lemma InlineInner(inner: string)
    requires '*' !in inner
    ensures InlineFields("{" + inner + "}") == FieldsOf(inner)
  {
    hide *;
    NoComments("{" + inner + "}");
    BracePositions(inner);
    FieldsBetween("{" + inner + "}", inner);
  }

  lemma WordRunIs(s: string, n: nat)
    requires n < |s| && !IsWordChar(s[n]) && forall i :: 0 <= i < n ==> IsWordChar(s[i])
    ensures WordRun(s) == n
  {
  }

  lemma FieldHeadRead(s: string, n: nat, optional: bool, colon: nat)
    requires n > 0 && WordRun(s) == n && n < |s| && (optional <==> s[n] == '?')
    requires colon == (if optional then n + 1 else n) && colon < |s| && s[colon] == ':'
    ensures ParseField(s) == FieldOf(s[..n], optional, s[colon + 1..])
  {
    hide WordRun, FieldOf;
  }

  lemma NameLength(name: string, tail: string)
    requires IsWord(name) && tail != "" && !IsWordChar(tail[0])
    ensures |name| > 0 && WordRun(name + tail) == |name|
  {
    WordRunIs(name + tail, |name|);
  }

  lemma FieldTextIs(name: string, optional: bool, text: string)
    requires IsWord(name)
    ensures (var s := name + (if optional then "?" else "") + ": " + text;
             var colon := if optional then |name| + 1 else |name|;
             && |name| > 0 && WordRun(s) == |name| && colon < |s| && s[colon] == ':' && s[colon + 1..] == " " + text
             && (optional <==> s[|name|] == '?') && s[..|name|] == name)
  {
    var tail := (if optional then "?" else "") + ": " + text;
    var s := name + (if optional then "?" else "") + ": " + text;
    assert s == name + tail;
    NameLength(name, tail);
    hide WordRun, IsWord, IsWordChar;
    assert s[|name|] == tail[0];
    assert s[if optional then |name| + 1 else |name|] == ':';
  }

  lemma FieldOfType(name: string, optional: bool, text: string)
    requires text != "" && !IsSpace(text[0]) && Trim(text) == text && IsLine(text)
    ensures FieldOf(name, optional, " " + text) == Some(Field(name, optional, text))
  {
    TrimStartSpace(text);
    hide Trim, TrimStart, IsSpace, IsLine;
  }

  /** A field is read up to its colon, whatever comes behind it on the line. */
  lemma FieldTextRead(name: string, optional: bool, text: string)
    requires IsWord(name) && text != "" && !IsSpace(text[0]) && Trim(text) == text && IsLine(text)
    ensures ParseField(name + (if optional then "?" else "") + ": " + text) == Some(Field(name, optional, text))
  {
    hide IsWord, WordRun, ParseField, FieldOf, Trim, IsSpace, IsLine;
    var s := name + (if optional then "?" else "") + ": " + text;
    FieldTextIs(name, optional, text);
    FieldHeadRead(s, |name|, optional, if optional then |name| + 1 else |name|);
    FieldOfType(name, optional, text);
  }

  lemma FieldRead(f: FieldTy)
    requires IsWord(f.name) && Whole(Print(f.ty))
    ensures ParseField(FieldText(f)) == Some(Field(f.name, f.optional, Print(f.ty)))
  {
    WholeTrimmed(Print(f.ty));
    hide Print, IsWord, ParseField, Whole, Trim, IsSpace, IsLine;
    FieldTextRead(f.name, f.optional, Print(f.ty));
  }

  lemma FieldTrimmed(f: FieldTy)
    requires IsWord(f.name) && Whole(Print(f.ty))
    ensures Trimmed(FieldText(f)) && FieldText(f) != ""
  {
    var s := FieldText(f);
    assert s[0] == f.name[0] && IsWordChar(s[0]);
    assert s[|s| - 1] == Print(f.ty)[|Print(f.ty)| - 1];
    hide Print, Balanced, Tidy;
  }

  lemma {:induction false} FieldsParsed(fields: seq<FieldTy>, padded: bool)
    requires AllFieldsPrintable(fields)
    ensures ParseFields(Pieces(fields, padded)) == Fields(fields)
  {
    hide ParseField, FieldText, Trim, Trimmed, Printable, Print, Whole, IsWord;
    if fields != [] {
      var f := fields[0];
      Printed(f.ty);
      FieldRead(f);
      FieldTrimmed(f);
      TrimPadded(FieldText(f), padded, false);
      var piece := (if padded then " " else "") + FieldText(f);
      assert piece + "" == piece;
      assert Pieces(fields, padded)[0] == piece && Pieces(fields, padded)[1..] == Pieces(fields[1..], true);
      FieldsParsed(fields[1..], true);
    }
  }

  lemma {:induction false} JoinedTrimmed(fields: seq<FieldTy>, padded: bool)
    requires fields != [] && AllFieldsPrintable(fields)
    ensures (var text := Join(Pieces(fields, padded), ';');
             text != "" && !IsSpace(text[|text| - 1]) && (!padded ==> !IsSpace(text[0])))
  {
    hide FieldText, Printable, Print, Whole, IsWord, IsSpace;
    Printed(fields[0].ty);
    FieldTrimmed(fields[0]);
    var first := (if padded then " " else "") + FieldText(fields[0]);
    assert Pieces(fields, padded)[0] == first;
    if |fields| > 1 {
      JoinedTrimmed(fields[1..], true);
      var rest := Join(Pieces(fields[1..], true), ';');
      assert Pieces(fields, padded)[1..] == Pieces(fields[1..], true);
      assert Join(Pieces(fields, padded), ';') == first + [';'] + rest;
    }
  }

  lemma NoStar(fields: seq<FieldTy>)
    requires fields != [] && AllFieldsPrintable(fields)
    ensures '*' !in Join(Pieces(fields, false), ';')
  {
    FieldsPrinted(fields, false);
    hide Pieces, Join, AllFieldsPrintable;
  }

  lemma FieldsRead(fields: seq<FieldTy>)
    requires AllFieldsPrintable(fields)
    ensures InlineFields(Print(Obj(fields))) == Fields(fields)
  {
    hide ParseFields, AllFieldsPrintable, Pieces, Inner, InlineFields, Trim, IsSpace, Split, Join;
    var text := Join(Pieces(fields, false), ';');
    if fields == [] {
      assert "{" + "" + "}" == Print(Obj(fields));
      InlineInner("");
      NoFields();
    } else {
      NoStar(fields);
      InlineInner(" " + text + " ");
      assert "{" + (" " + text + " ") + "}" == Print(Obj(fields));
      JoinedTrimmed(fields, false);
      TrimPadded(text, true, true);
      FieldsPrinted(fields, false);
      SplitJoin(Pieces(fields, false), ';');
      FieldsParsed(fields, false);
    }
  }

  lemma NoFields()
    ensures ParseFields(Split(Trim(""), ';')) == [] && Fields([]) == []
  {
    TrimOfTrimmed("");
    assert [""][1..] == [];
  }

  /** No field that is found holds a `;`. */
  lemma {:induction false} ParsedNoSemicolon(pieces: seq<string>)
    requires forall i :: 0 <= i < |pieces| ==> ';' !in pieces[i]
    ensures forall i :: 0 <= i < |ParseFields(pieces)| ==> ';' !in ParseFields(pieces)[i].text
  {
    hide ParseField, Trim;
    if pieces != [] {
      ParsedNoSemicolon(pieces[1..]);
      TrimmedNoChar(pieces[0], ';');
      FieldNoChar(Trim(pieces[0]), ';');
    }
  }

  lemma PartNoChar(s: string, from: nat, to: nat, c: char)
    requires from <= to <= |s|
    ensures c !in s ==> c !in s[from..to]
  {
  }

  lemma TrimmedNoChar(s: string, c: char)
    ensures c !in s ==> c !in Trim(s)
  {
    hide TrimStart, TrimEnd, IsSpace;
    var t := TrimStart(s);
    PartNoChar(s, |s| - |t|, |s|, c);
    assert s[|s| - |t|..|s|] == t;
    PartNoChar(t, 0, |TrimEnd(t)|, c);
    assert t[0..|TrimEnd(t)|] == TrimEnd(t);
  }

  lemma FieldNoChar(field: string, c: char)
    ensures c !in field && ParseField(field).Some? ==> c !in ParseField(field).value.text
  {
    hide WordRun, FieldOf, IsWordChar;
    var n := WordRun(field);
    var colon := if n < |field| && field[n] == '?' then n + 1 else n;
    if colon < |field| {
      var rest := field[colon + 1..];
      assert c !in field ==> c !in rest;
      FieldOfNoChar(field[..n], n < |field| && field[n] == '?', rest, c);
    }
  }

  lemma FieldOfNoChar(name: string, optional: bool, rest: string, c: char)
    ensures c !in rest && FieldOf(name, optional, rest).Some? ==> c !in FieldOf(name, optional, rest).value.text
  {
    hide TrimStart, Trim, IsLine, IsSpace;
    var t := TrimStart(rest);
    PartNoChar(rest, |rest| - |t|, |rest|, c);
    assert rest[|rest| - |t|..|rest|] == t;
    TrimmedNoChar(t, c);
  }

  lemma InlineMeans(text: string) returns (inner: string)
    ensures InlineFields(text) == [] || InlineFields(text) == FieldsOf(inner)
  {
    hide StripComments, IndexFrom, LastIndex, FieldsOf;
    var cleaned := StripComments(text);
    var open, close := IndexFrom(cleaned, '{', 0), LastIndex(cleaned, '}');
    inner := if open < |cleaned| && open < close then cleaned[open + 1..close] else "";
  }

  lemma InlineNoSemicolon(text: string)
    ensures forall i :: 0 <= i < |InlineFields(text)| ==> ';' !in InlineFields(text)[i].text
  {
    hide InlineFields, Trim, Split, ParseFields;
    var inner := InlineMeans(text);
    JoinSplit(Trim(inner), ';');
    ParsedNoSemicolon(Split(Trim(inner), ';'));
  }

  lemma {:induction false} NoSemicolonPrintable(fields: seq<FieldTy>)
    requires AllFieldsNamed(fields)
    requires forall i :: 0 <= i < |fields| ==> ';' !in Fields(fields)[i].text
    ensures AllFieldsPrintable(fields)
  {
    hide Printable, Print, IsWord;
    if fields != [] {
      assert Fields(fields)[0].text == Print(fields[0].ty);
      forall i | 0 <= i < |fields[1..]| ensures ';' !in Fields(fields[1..])[i].text {
        assert Fields(fields[1..])[i] == Fields(fields)[i + 1];
      }
      NoSemicolonPrintable(fields[1..]);
    }
  }

  /** The fields of an object are found exactly when no field type is printed with a `;`. */
  lemma FieldsReadExactly(fields: seq<FieldTy>)
    requires AllFieldsNamed(fields)
    ensures InlineFields(Print(Obj(fields))) == Fields(fields) <==> AllFieldsPrintable(fields)
  {
    hide InlineFields, Print, AllFieldsNamed, AllFieldsPrintable;
    if AllFieldsPrintable(fields) {
      FieldsRead(fields);
    }
    if InlineFields(Print(Obj(fields))) == Fields(fields) {
      InlineNoSemicolon(Print(Obj(fields)));
      NoSemicolonPrintable(fields);
    }
  }

  // ---- an object in an object

  const INNER: string := "{ b: string; c: number }"

  /** The inner object is cut at its `;`. */
  lemma NestedObjectMisread()
    ensures (var fields := [FieldTy("a", false, Obj([FieldTy("b", false, Simple("string")), FieldTy("c", false, Simple("number"))]))];
             && AllFieldsNamed(fields) && Print(Obj(fields)) == "{ a: " + INNER + " }"
             && InlineFields("{ a: " + INNER + " }") != Fields(fields))
  {
    hide *;
    var b, c := FieldTy("b", false, Simple("string")), FieldTy("c", false, Simple("number"));
    var a := FieldTy("a", false, Obj([b, c]));
    NestedNamed(a, b, c);
    PrintPair(b, c);
    NestedTexts(b, c);
    FieldMisread(a);
    BracedName(INNER);
  }

  lemma BracedName(inner: string)
    ensures "{ " + ("a: " + inner) + " }" == "{ a: " + inner + " }"
  {
  }

  lemma FieldMisread(f: FieldTy)
    requires AllFieldsNamed([f]) && !f.optional && ';' in Print(f.ty)
    ensures Print(Obj([f])) == "{ " + (f.name + ": " + Print(f.ty)) + " }"
    ensures InlineFields(Print(Obj([f]))) != Fields([f])
  {
    hide *;
    PrintSingle(f);
    FieldTextMeans(f);
    NotPrintable(f);
    FieldsReadExactly([f]);
  }

  lemma FieldTextMeans(f: FieldTy)
    ensures !f.optional ==> FieldText(f) == f.name + ": " + Print(f.ty)
  {
    hide Print;
    assert f.name + "" == f.name;
  }

  lemma NotPrintable(f: FieldTy)
    requires ';' in Print(f.ty)
    ensures !AllFieldsPrintable([f])
  {
    hide Print, Printable, IsWord;
  }

  lemma PrintPair(b: FieldTy, c: FieldTy)
    ensures Print(Obj([b, c])) == "{ " + (FieldText(b) + ";" + (" " + FieldText(c))) + " }"
  {
    hide FieldText;
    assert [b, c][1..] == [c] && [c][1..] == [];
    var first, second := "" + FieldText(b), " " + FieldText(c);
    assert first == FieldText(b);
    assert Pieces([c], true) == [second] && Pieces([b, c], false) == [first] + [second];
    assert ([first] + [second])[1..] == [second];
    assert Join([first] + [second], ';') == first + [';'] + second;
  }

  lemma PrintSingle(a: FieldTy)
    ensures Print(Obj([a])) == "{ " + FieldText(a) + " }"
  {
    hide FieldText;
    assert [a][1..] == [];
    assert "" + FieldText(a) == FieldText(a);
    assert Pieces([a], false) == [FieldText(a)];
  }

  lemma NestedTexts(b: FieldTy, c: FieldTy)
    requires b == FieldTy("b", false, Simple("string")) && c == FieldTy("c", false, Simple("number"))
    ensures "{ " + (FieldText(b) + ";" + (" " + FieldText(c))) + " }" == INNER && ';' in INNER
  {
    NestedFields(b, c);
    hide *;
    InnerText();
  }

  lemma NestedFields(b: FieldTy, c: FieldTy)
    requires b == FieldTy("b", false, Simple("string")) && c == FieldTy("c", false, Simple("number"))
    ensures FieldText(b) == "b: string" && FieldText(c) == "c: number"
  {
    assert Print(b.ty) == "string" && Print(c.ty) == "number";
    FieldTextMeans(b);
    FieldTextMeans(c);
    hide Print, FieldText;
    assert "b" + ": " + "string" == "b: string" && "c" + ": " + "number" == "c: number";
  }

  lemma InnerText()
    ensures "{ " + ("b: string" + ";" + (" " + "c: number")) + " }" == INNER && ';' in INNER
  {
    assert INNER[11] == ';';
  }

  lemma NestedNamed(a: FieldTy, b: FieldTy, c: FieldTy)
    requires b == FieldTy("b", false, Simple("string")) && c == FieldTy("c", false, Simple("number"))
    requires a == FieldTy("a", false, Obj([b, c]))
    ensures AllFieldsNamed([a]) && a.name == "a" && !a.optional && a.ty == Obj([b, c])
  {
    assert [b, c][1..] == [c] && [c][1..] == [] && [a][1..] == [];
    assert forall i :: 0 <= i < 6 ==> "string"[i] != ';' && "number"[i] != ';';
    assert Printable(b.ty) && Printable(c.ty);
    hide SIMPLE;
    assert AllFieldsPrintable([c]);
    assert AllFieldsPrintable([b, c]);
  }

  // ---- the round trip

  /** The value, if the text fits and its interfaces are ready; an error otherwise, which is the
      nesting error when they are. */
  predicate Yields<T(==)>(r: Result<T>, fits: bool, ready: bool, value: T) {
    if fits && ready then r == Ok(value) else !r.Ok? && (ready ==> r.TooDeep?)
  }

  lemma Leaves(p: Project, text: string, node: Node, depth: nat, stack: nat)
    requires Classify(p, text) == Leaf(node)
    ensures Yields(Compile(p, text, depth, stack), depth <= DEPTH_LIMIT, true, node)
  {
    hide Classify;
  }

  lemma Arrays(p: Project, text: string, elem: string, fits: bool, ready: bool, node: Node, depth: nat, stack: nat)
    requires Classify(p, text) == ArrayOf(elem) && Yields(Compile(p, elem, depth + 1, stack), fits, ready, node)
    ensures Yields(Compile(p, text, depth, stack), depth <= DEPTH_LIMIT && fits, ready, ArrayNode(node))
  {
    hide Classify, ArrayNode;
  }

  lemma Records(p: Project, text: string, value: string, fits: bool, ready: bool, node: Node, depth: nat, stack: nat)
    requires Classify(p, text) == RecordOf(value) && Yields(Compile(p, value, depth + 1, stack), fits, ready, node)
    ensures Yields(Compile(p, text, depth, stack), depth <= DEPTH_LIMIT && fits, ready, RecordNode(node))
  {
    hide Classify, RecordNode;
  }

  lemma Sames(p: Project, text: string, inner: string, depth: nat, stack: nat)
    requires Classify(p, text) == Same(inner)
    ensures depth <= DEPTH_LIMIT ==> Compile(p, text, depth, stack) == Compile(p, inner, depth + 1, stack)
    ensures depth > DEPTH_LIMIT ==> Compile(p, text, depth, stack).TooDeep?
  {
    hide Classify;
  }

  lemma Unions(p: Project, text: string, texts: seq<string>, fits: bool, ready: bool, nodes: seq<Node>, depth: nat, stack: nat)
    requires Classify(p, text) == OneOf(texts)
    requires forall i :: 0 <= i < |texts| ==> |texts[i]| < |text|
    requires Yields(CompileAll(p, texts, depth + 1, stack, |text|), fits, ready, nodes)
    ensures Yields(Compile(p, text, depth, stack), depth <= DEPTH_LIMIT && fits, ready, OneOfNode(nodes))
  {
    hide Classify, OneOfNode;
  }

  lemma Objects(p: Project, text: string, fields: seq<Field>, fits: bool, ready: bool, node: Node, depth: nat, stack: nat)
    requires Classify(p, text) == Inline(fields)
    requires forall i :: 0 <= i < |fields| ==> |fields[i].text| < |text|
    requires Yields(CompileFields(p, fields, EMPTY_OBJECT, stack, |text|), fits, ready, node)
    ensures Yields(Compile(p, text, depth, stack), depth <= DEPTH_LIMIT && fits, ready, node)
  {
    hide Classify, EMPTY_OBJECT;
  }

  /** What a text that reads like the printed type compiles to. */
  lemma {:induction false} Reads(p: Project, t: Ty, text: string, depth: nat, stack: nat)
    requires Printable(t) && Classify(p, text) == Classify(p, Print(t))
    ensures Yields(Compile(p, text, depth, stack), Fits(t, depth), Ready(p, t, stack), Sem(p, t, stack))
    decreases t, 3
  {
    hide Classify, Compile, Yields, Print, Wrap, Piece, Whole, CapitalWord, IsWord, LiteralTexts, InlineFields, Readable;
    hide MemberNode, EnumNode, SimpleNode, EMPTY_OBJECT, SIMPLE;
    PrintMeans(t);
    match t {
      case Simple(word) => SimpleRead(p, word); Leaves(p, text, SimpleNode(word), depth, stack);
      case Undef => UndefRead(p); Leaves(p, text, Anything, depth, stack);
      case Name(name) => NameRead(p, name); Leaves(p, text, RefNode(name), depth, stack);
      case Member(enum, key) => MemberRead(p, enum, key); Leaves(p, text, MemberNode(p, enum, key), depth, stack);
      case Lits(values) => LiteralsClassified(p, values); Leaves(p, text, EnumNode(values), depth, stack);
      case Arr(elem) =>
        Printed(elem);
        WrapReads(p, elem);
        ArrayRead(p, Wrap(elem));
        Reads(p, elem, Wrap(elem), depth + 1, stack);
        Arrays(p, text, Wrap(elem), Fits(elem, depth + 1), Ready(p, elem, stack), Sem(p, elem, stack), depth, stack);
      case Rec(value) =>
        Printed(value);
        RecordRead(p, Print(value));
        Reads(p, value, Print(value), depth + 1, stack);
        Records(p, text, Print(value), Fits(value, depth + 1), Ready(p, value, stack), Sem(p, value, stack), depth, stack);
      case Partial(name) =>
        PartialRead(p, name);
        ReadsPartial(p, name, text, depth, stack);
      case Union(members) =>
        ReadsUnion(p, members, text, depth, stack);
        FitsUnionMeans(members, depth);
      case Obj(fields) =>
        ReadsObject(p, t, text, depth, stack);
    }
  }

  lemma PrintMeans(t: Ty)
    ensures match t
            case Simple(word) => Print(t) == word
            case Undef => Print(t) == "undefined"
            case Name(name) => Print(t) == name
            case Member(enum, key) => Print(t) == enum + "." + key
            case Lits(values) => Print(t) == Bars(Quoted(values))
            case Arr(elem) => Print(t) == Wrap(elem) + "[]"
            case Rec(value) => Print(t) == RECORD + " " + Print(value) + ">"
            case Partial(name) => Print(t) == PartialText(name)
            case Union(members) => Print(t) == Bars(Wraps(members))
            case Obj(fields) => Print(t) != "" && Print(t)[0] == '{' && Print(t)[|Print(t)| - 1] == '}'
  {
    hide Bars, Quoted, Wraps, Wrap, Pieces, Join;
  }

  /** `Partial<>` of a declared interface is inlined; of any other name it is a reference. */
  lemma ReadsPartial(p: Project, name: string, text: string, depth: nat, stack: nat)
    requires Classify(p, text) == if name in p.interfaces then PartialOf(name) else Leaf(RefNode(PartialText(name)))
    ensures Yields(Compile(p, text, depth, stack), depth <= DEPTH_LIMIT, Ready(p, Partial(name), stack), Sem(p, Partial(name), stack))
  {
    hide Classify, CompileProps, AllCompile, Outline;
    if name in p.interfaces && stack > 0 {
      PropsOutline(p, p.interfaces[name], stack - 1);
    }
  }

  /** Wrapping makes no difference to what is read. */
  lemma ReadsWrapped(p: Project, t: Ty, depth: nat, stack: nat)
    requires Printable(t)
    ensures Yields(Compile(p, Wrap(t), depth, stack), Fits(t, depth), Ready(p, t, stack), Sem(p, t, stack))
    decreases t, 4
  {
    hide *;
    WrapReads(p, t);
    Reads(p, t, Wrap(t), depth, stack);
  }

  lemma LiveStep(p: Project, ts: seq<Ty>, stack: nat)
    requires ts != []
    ensures ts[0].Undef? ==> Live(ts) == Live(ts[1..]) && SemAll(p, ts, stack) == SemAll(p, ts[1..], stack)
    ensures !ts[0].Undef? ==> Wraps(Live(ts)) == [Wrap(ts[0])] + Wraps(Live(ts[1..])) && |Live(ts)| == 1 + |Live(ts[1..])|
    ensures !ts[0].Undef? ==> SemAll(p, ts, stack) == [Sem(p, ts[0], stack)] + SemAll(p, ts[1..], stack)
  {
    hide Sem, Wrap;
    var live := [ts[0]] + Live(ts[1..]);
    assert live[1..] == Live(ts[1..]);
  }

  lemma CompileStep(p: Project, texts: seq<string>, first: Node, fits: bool, ready: bool, rest: seq<Node>, fit: bool,
                    prepared: bool, depth: nat, stack: nat, bound: nat)
    requires texts != [] && forall i :: 0 <= i < |texts| ==> |texts[i]| < bound
    requires Yields(Compile(p, texts[0], depth, stack), fits, ready, first)
    requires Yields(CompileAll(p, texts[1..], depth, stack, bound), fit, prepared, rest)
    ensures Yields(CompileAll(p, texts, depth, stack, bound), fits && fit, ready && prepared, [first] + rest)
  {
    hide Compile;
  }

  /** The branches of a union, at one level more. */
  lemma {:induction false} ReadsAll(p: Project, ts: seq<Ty>, depth: nat, stack: nat, bound: nat)
    requires AllPrintable(ts)
    requires forall i :: 0 <= i < |Wraps(Live(ts))| ==> |Wraps(Live(ts))[i]| < bound
    ensures Yields(CompileAll(p, Wraps(Live(ts)), depth, stack, bound), FitsAll(ts, depth), AllReady(p, ts, stack), SemAll(p, ts, stack))
    decreases ts, 5
  {
    hide Wrap, Printable, Fits, Sem, Compile, Live, Wraps;
    if ts == [] {
      NoneLive();
    } else {
      LiveStep(p, ts, stack);
      if !ts[0].Undef? {
        var texts := Wraps(Live(ts));
        assert texts[1..] == Wraps(Live(ts[1..]));
        ReadsWrapped(p, ts[0], depth, stack);
        ReadsAll(p, ts[1..], depth, stack, bound);
        CompileStep(p, texts, Sem(p, ts[0], stack), Fits(ts[0], depth), Ready(p, ts[0], stack), SemAll(p, ts[1..], stack),
                    FitsAll(ts[1..], depth), AllReady(p, ts[1..], stack), depth, stack, bound);
      } else {
        ReadsAll(p, ts[1..], depth, stack, bound);
      }
    }
  }

  lemma NoneLive()
    ensures Live([]) == [] && Wraps([]) == []
  {
  }

  lemma {:induction false} LiveCount(p: Project, ts: seq<Ty>, stack: nat)
    ensures |SemAll(p, ts, stack)| == |Live(ts)|
  {
    hide Sem;
    if ts != [] {
      LiveCount(p, ts[1..], stack);
    }
  }

  lemma {:induction false} PrefixMembers(p: Project, ts: seq<Ty>, stack: nat)
    requires ts != [] && AllPrintable(ts)
    ensures AllPrintable(ts[..|ts| - 1])
    ensures Wraps(ts) == Wraps(ts[..|ts| - 1]) + [Wrap(ts[|ts| - 1])]
    ensures ts[|ts| - 1].Undef? ==> SemAll(p, ts, stack) == SemAll(p, ts[..|ts| - 1], stack)
    ensures ts[|ts| - 1].Undef? ==> (AllReady(p, ts, stack) <==> AllReady(p, ts[..|ts| - 1], stack))
  {
    hide Printable, Wrap, Sem;
    var front := ts[..|ts| - 1];
    if |ts| > 1 {
      PrefixMembers(p, ts[1..], stack);
      assert front[1..] == ts[1..][..|ts| - 2];
    } else {
      assert front == [] && ts[1..] == [];
    }
  }

  lemma UndefinedBranch(p: Project, s: string, front: string)
    requires BeforeUndefined(s) == Some(front)
    requires LiteralValues(s) == None && s !in SIMPLE && ArrayElement(s) == None && RecordValue(s) == None
    ensures ClassifyCleaned(p, s) == Same(front)
  {
    hide LiteralValues, SIMPLE, ArrayElement, RecordValue, BeforeUndefined, PartialName, ClassifyUnion;
  }

  lemma UndefinedCut(s: string, front: string, rest: string)
    requires EndsWith(s, "undefined") && TrimEnd(s[..|s| - 9]) == rest + "|" && TrimEnd(rest) == front != "" && IsLine(front)
    ensures BeforeUndefined(s) == Some(front)
  {
    hide TrimEnd, IsLine;
    assert (rest + "|")[..|rest|] == rest;
  }

  lemma UndefinedDropped(front: string)
    requires Whole(front)
    ensures BeforeUndefined(front + " | undefined") == Some(front)
  {
    hide Balanced, Tidy, TrimEnd, IsSpace, IsLine, BeforeUndefined;
    var s := front + " | undefined";
    var rest := front + " ";
    assert s[..|s| - 9] == rest + "|" + " " && s[|s| - 9..] == "undefined";
    BarNoSpace();
    TrimEndOfSpaced(rest + "|", " ");
    TrimEndOfSpaced(front, " ");
    TidyIsLine(front);
    UndefinedCut(s, front, rest);
  }

  lemma BarNoSpace()
    ensures !IsSpace('|') && AllSpace(" ")
  {
  }

  /** A trailing `undefined` is cut off. */
  lemma LastUndefined(p: Project, parts: seq<string>)
    requires parts != [] && AllPiece(parts)
    ensures Classify(p, Bars(parts + ["undefined"])) == Same(Bars(parts))
  {
    hide Whole, Piece, Cleaned, ClassifyCleaned, BeforeUndefined, SIMPLE, LiteralValues, ArrayElement;
    var front := Bars(parts);
    var s := front + " | undefined";
    BarsSnoc(parts, "undefined");
    assert front + " | " + "undefined" == s;
    BarsWhole(parts);
    SimplePiece("undefined");
    BarsWhole(parts + ["undefined"]);
    assert s[|s| - 1] == 'd' && s[|front| + 1] == '|';
    CleanedSame(s);
    ClassifiedAs(p, s, s);
    UndefinedDropped(front);
    LiteralEnds(s);
    SimpleNoBar(s);
    NoArray(s);
    UndefinedBranch(p, s, front);
  }

  lemma UnionOf(p: Project, members: seq<Ty>, text: string, stack: nat)
    requires |members| >= 2 && AllPrintable(members) && !members[|members| - 1].Undef? && Splittable(Bars(Wraps(members)))
    requires Classify(p, text) == Classify(p, Bars(Wraps(members)))
    ensures Classify(p, text) == UnionShape(Wraps(Live(members))) && Live(members) != []
    ensures forall i :: 0 <= i < |Wraps(Live(members))| ==> |Wraps(Live(members))[i]| < |text|
  {
    hide Classify, Splittable, Wrap, Piece, Printable, Live;
    AllPrinted(members);
    PrefixMembers(p, members, stack);
    LastPrintable(members);
    WrapUndefined(members[|members| - 1]);
    UnionRead(p, Wraps(members));
    LiveWraps(members);
    ClassifyShrinks(p, text);
  }

  lemma {:induction false} LastPrintable(ts: seq<Ty>)
    requires ts != [] && AllPrintable(ts)
    ensures Printable(ts[|ts| - 1])
  {
    hide Printable;
    if |ts| > 1 {
      LastPrintable(ts[1..]);
    }
  }

  /** One branch is compiled in place of the union. */
  lemma UnionCompiles(p: Project, text: string, texts: seq<string>, fits: bool, ready: bool, nodes: seq<Node>, depth: nat, stack: nat)
    requires Classify(p, text) == UnionShape(texts) && texts != [] && |nodes| == |texts|
    requires forall i :: 0 <= i < |texts| ==> |texts[i]| < |text|
    requires Yields(CompileAll(p, texts, depth + 1, stack, |text|), fits, ready, nodes)
    ensures Yields(Compile(p, text, depth, stack), depth <= DEPTH_LIMIT && fits, ready, UnionNode(nodes))
  {
    hide Classify, Compile, OneOfNode;
    if |texts| == 1 {
      assert texts[1..] == [];
      Sames(p, text, texts[0], depth, stack);
    } else {
      Unions(p, text, texts, fits, ready, nodes, depth, stack);
    }
  }

  lemma OneMember(p: Project, m: Ty, stack: nat)
    ensures Bars(Wraps([m])) == Wrap(m)
    ensures UnionNode(SemAll(p, [m], stack)) == Sem(p, m, stack)
  {
    hide Wrap;
    assert [m][1..] == [];
  }

  lemma {:induction false} ReadsUnion(p: Project, members: seq<Ty>, text: string, depth: nat, stack: nat)
    requires members != [] && AllPrintable(members) && Readable(members)
    requires Classify(p, text) == Classify(p, Bars(Wraps(members)))
    ensures Yields(Compile(p, text, depth, stack), FitsUnion(members, depth), AllReady(p, members, stack), UnionNode(SemAll(p, members, stack)))
    decreases members, 6
  {
    hide Classify, Compile, Printable, Wrap, Wraps, Bars, Fits, FitsAll, Sem, SemAll, Live, UnionNode, Splittable;
    var n := |members|;
    if n == 1 {
      FitsWithin(members[0], depth);
      assert members == [members[0]];
      OneMember(p, members[0], stack);
      WrapReads(p, members[0]);
      Reads(p, members[0], text, depth, stack);
    } else if members[n - 1].Undef? {
      var front := members[..n - 1];
      PrefixMembers(p, members, stack);
      AllPrinted(front);
      UndefMeans();
      LastUndefined(p, Wraps(front));
      ReadsUnion(p, front, Bars(Wraps(front)), depth + 1, stack);
      Sames(p, text, Bars(Wraps(front)), depth, stack);
    } else {
      UnionOf(p, members, text, stack);
      ReadsAll(p, members, depth + 1, stack, |text|);
      LiveCount(p, members, stack);
      UnionCompiles(p, text, Wraps(Live(members)), FitsAll(members, depth + 1), AllReady(p, members, stack), SemAll(p, members, stack), depth, stack);
    }
  }

  lemma FitsWithin(t: Ty, depth: nat)
    ensures Fits(t, depth) ==> depth <= DEPTH_LIMIT
  {
  }

  lemma FitsUnionMeans(members: seq<Ty>, depth: nat)
    ensures Fits(Union(members), depth) <==> FitsUnion(members, depth)
  {
    hide FitsAll;
  }

  lemma UndefMeans()
    ensures Wrap(Undef) == "undefined"
  {
  }

  /** What the schema is after one field. */
  function WithField(p: Project, sofar: Node, f: FieldTy, stack: nat): Node {
    sofar.(properties := SetProperty(sofar.properties, f.name, Sem(p, f.ty, stack)),
           required := if f.optional || Admits(f.ty) then sofar.required else sofar.required + [f.name])
  }

  lemma FieldStep(p: Project, f: FieldTy, fields: seq<Field>, sofar: Node, stack: nat, bound: nat, fits: bool, ready: bool)
    requires fields != [] && fields[0] == Field(f.name, f.optional, Print(f.ty)) && (TypeAdmitsUndefined(Print(f.ty)) <==> Admits(f.ty))
    requires forall i :: 0 <= i < |fields| ==> |fields[i].text| < bound
    requires Yields(Compile(p, Print(f.ty), 0, stack), fits, ready, Sem(p, f.ty, stack))
    ensures fits && ready ==> CompileFields(p, fields, sofar, stack, bound) == CompileFields(p, fields[1..], WithField(p, sofar, f, stack), stack, bound)
    ensures !(fits && ready) ==> !CompileFields(p, fields, sofar, stack, bound).Ok?
    ensures !fits && ready ==> CompileFields(p, fields, sofar, stack, bound).TooDeep?
  {
    hide Compile, Print, TypeAdmitsUndefined, Admits, SetProperty, Sem;
  }

  lemma {:induction false} ReadsFields(p: Project, fields: seq<FieldTy>, sofar: Node, stack: nat, bound: nat)
    requires AllFieldsPrintable(fields)
    requires forall i :: 0 <= i < |Fields(fields)| ==> |Fields(fields)[i].text| < bound
    ensures Yields(CompileFields(p, Fields(fields), sofar, stack, bound), FitFields(fields), FieldsReady(p, fields, stack), SemFields(p, fields, sofar, stack))
    decreases fields, 0
  {
    hide Compile, Print, TypeAdmitsUndefined, Admits, SetProperty, Printable, Fits, Sem, IsWord;
    if fields != [] {
      var f := fields[0];
      Reads(p, f.ty, Print(f.ty), 0, stack);
      AdmitsRead(f.ty);
      FieldStep(p, f, Fields(fields), sofar, stack, bound, Fits(f.ty, 0), Ready(p, f.ty, stack));
      assert Fields(fields)[1..] == Fields(fields[1..]);
      ReadsFields(p, fields[1..], WithField(p, sofar, f, stack), stack, bound);
    }
  }

  lemma ReadsObject(p: Project, t: Ty, text: string, depth: nat, stack: nat)
    requires Printable(t) && t.Obj? && Classify(p, text) == Classify(p, Print(t))
    ensures Yields(Compile(p, text, depth, stack), Fits(t, depth), Ready(p, t, stack), Sem(p, t, stack))
    decreases t, 2
  {
    hide *;
    ObjectMeans(p, t, depth, stack);
    ObjectClassified(p, t);
    ClassifyShrinks(p, text);
    InlineSmaller(Fields(t.fields), |text|);
    ReadsFields(p, t.fields, EMPTY_OBJECT, stack, |text|);
    Objects(p, text, Fields(t.fields), FitFields(t.fields), Ready(p, t, stack), Sem(p, t, stack), depth, stack);
  }

  lemma ObjectClassified(p: Project, t: Ty)
    requires Printable(t) && t.Obj? && AllFieldsPrintable(t.fields)
    ensures Classify(p, Print(t)) == Inline(Fields(t.fields))
  {
    hide Classify, Print, Piece, Whole, AllFieldsPrintable, InlineFields, Printable;
    Printed(t);
    PrintMeans(t);
    ObjectRead(p, Print(t));
    FieldsRead(t.fields);
  }

  lemma InlineSmaller(fields: seq<Field>, bound: nat)
    ensures Smaller(Inline(fields), bound) <==> forall i :: 0 <= i < |fields| ==> |fields[i].text| < bound
  {
  }

  lemma ObjectMeans(p: Project, t: Ty, depth: nat, stack: nat)
    requires Printable(t) && t.Obj?
    ensures Sem(p, t, stack) == SemFields(p, t.fields, EMPTY_OBJECT, stack)
    ensures AllFieldsPrintable(t.fields) && t == Obj(t.fields)
    ensures Fits(t, depth) <==> depth <= DEPTH_LIMIT && FitFields(t.fields)
    ensures Ready(p, t, stack) <==> FieldsReady(p, t.fields, stack)
  {
    hide AllFieldsPrintable, FitFields, SemFields, EMPTY_OBJECT;
  }

  /** Compiling undoes printing exactly within the nesting limit and when the interfaces inlined
      for `Partial<>` compile, and fails otherwise: with the nesting error, when only the limit is
      exceeded. */
  lemma CompileUndoesPrint(p: Project, t: Ty, depth: nat, stack: nat)
    requires Printable(t)
    ensures Compile(p, Print(t), depth, stack) == Ok(Sem(p, t, stack)) <==> Fits(t, depth) && Ready(p, t, stack)
    ensures !(Fits(t, depth) && Ready(p, t, stack)) ==> !Compile(p, Print(t), depth, stack).Ok?
    ensures !Fits(t, depth) && Ready(p, t, stack) ==> Compile(p, Print(t), depth, stack).TooDeep?
  {
    hide Printable, Compile, Print, Fits, Sem, Classify;
    Reads(p, t, Print(t), depth, stack);
  }

  function Nested(n: nat): Ty {
    if n == 0 then Simple("string") else Arr(Nested(n - 1))
  }

  lemma {:induction false} NestedMeans(p: Project, n: nat, depth: nat, stack: nat)
    ensures Printable(Nested(n)) && Ready(p, Nested(n), stack)
    ensures Fits(Nested(n), depth) <==> depth + n <= 100
  {
    if n > 0 {
      NestedMeans(p, n - 1, depth + 1, stack);
    }
  }

  /** A hundred levels of arrays compile and one more does not. */
  lemma HundredLevels(p: Project, n: nat, stack: nat)
    ensures Compile(p, Print(Nested(n)), 0, stack).Ok? <==> n <= 100
  {
    hide *;
    NestedMeans(p, n, 0, stack);
    CompileUndoesPrint(p, Nested(n), 0, stack);
  }

  /** An interface inlined for `Partial<>` requires nothing, and describes exactly the declared
      names, each once and as declared last. */
  lemma PartialSchema(p: Project, name: string, depth: nat, stack: nat)
    requires IsWord(name) && name in p.interfaces && Compile(p, "Partial<" + name + ">", depth, stack).Ok?
    ensures (var node := Compile(p, "Partial<" + name + ">", depth, stack).value; var props := p.interfaces[name];
             && node.kind == "object" && node.required == [] && stack > 0
             && NoRepeats(PropertyNames(node.properties))
             && (forall n :: n in PropertyNames(node.properties) <==> Declares(props, n))
             && (forall i :: LastNamed(props, i) ==>
                   && Compile(p, props[i].text, 0, stack - 1).Ok?
                   && Describes(node.properties, props[i].name, Compile(p, props[i].text, 0, stack - 1).value)))
  {
    hide Classify, Declares, Describes, PropertyNames, NoRepeats, CompileProps;
    PartialRead(p, name);
    InterfaceSchema(p, p.interfaces[name], stack - 1);
    PropsOutline(p, p.interfaces[name], stack - 1);
    hide Outline, AllCompile;
  }
}
