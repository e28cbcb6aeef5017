/** Types as trees, and the text that the schema generator reads for them. */
module PrintedType {
  import opened JsText
  import opened Schema
  import opened TypeText
  import opened TypeCompiler
  import opened BracketText

  datatype Ty =
    | Simple(word: string)
    | Undef
    | Name(name: string)
    | Member(enum: string, key: string)
    | Lits(values: seq<string>)
    | Arr(elem: Ty)
    | Rec(value: Ty)
    | Partial(name: string)
    | Union(members: seq<Ty>)
    | Obj(fields: seq<FieldTy>)

  datatype FieldTy = FieldTy(name: string, optional: bool, ty: Ty)

  // ---- printing

  function Quoted(values: seq<string>): (r: seq<string>)
    ensures |r| == |values|
  {
    if values == [] then [] else ["'" + values[0] + "'"] + Quoted(values[1..])
  }

  function PartialText(name: string): string {
    "Partial<" + name + ">"
  }

  function Print(t: Ty): string
    decreases t, 0
  {
    match t
    case Simple(word) => word
    case Undef => "undefined"
    case Name(name) => name
    case Member(enum, key) => enum + "." + key
    case Lits(values) => Bars(Quoted(values))
    case Arr(elem) => Wrap(elem) + "[]"
    case Rec(value) => RECORD + " " + Print(value) + ">"
    case Partial(name) => PartialText(name)
    case Union(members) => Bars(Wraps(members))
    case Obj(fields) => if fields == [] then "{}" else "{ " + Join(Pieces(fields, false), ';') + " }"
  }

  /** A union inside another type stands in parentheses. */
  function Wrap(t: Ty): string
    decreases t, 1
  {
    if t.Union? || (t.Lits? && |t.values| > 1) then "(" + Print(t) + ")" else Print(t)
  }

  function Wraps(ts: seq<Ty>): (r: seq<string>)
    ensures |r| == |ts|
    decreases ts, 2
  {
    if ts == [] then [] else [Wrap(ts[0])] + Wraps(ts[1..])
  }

  function FieldText(f: FieldTy): string
    decreases f, 0
  {
    f.name + (if f.optional then "?" else "") + ": " + Print(f.ty)
  }

  function Pieces(fields: seq<FieldTy>, padded: bool): (r: seq<string>)
    ensures |r| == |fields|
    decreases fields, 2
  {
    if fields == [] then []
    else [(if padded then " " else "") + FieldText(fields[0])] + Pieces(fields[1..], true)
  }

  // ---- which trees print to a text that can be read back

  predicate LiteralChar(c: char) {
    c != '\'' && Bracket(c) == 0 && c != '|' && c != ';' && c != '*' && !IsLineEnd(c)
  }

  predicate LiteralText(s: string) {
    forall i :: 0 <= i < |s| ==> LiteralChar(s[i])
  }

  predicate LiteralTexts(values: seq<string>) {
    forall i :: 0 <= i < |values| ==> LiteralText(values[i])
  }

  predicate CapitalWord(s: string) {
    IsWord(s) && IsCapital(s[0])
  }

  /** What the text of a union may not look like, because an earlier test would match it. */
  predicate Splittable(text: string) {
    && text != ""
    && text[0] != '\''
    && !EndsWith(text, "[]")
    && !(StartsWith(text, RECORD) && text[|text| - 1] == '>')
    && !(text[0] == '(' && text[|text| - 1] == ')')
  }

  /** Without its trailing `undefined` members, a union is splittable or has one member. */
  predicate Readable(members: seq<Ty>) {
    if |members| <= 1 then true
    else if members[|members| - 1].Undef? then Readable(members[..|members| - 1])
    else Splittable(Bars(Wraps(members)))
  }

  predicate Printable(t: Ty)
    decreases t, 0
  {
    match t
    case Simple(word) => word in SIMPLE
    case Undef => true
    case Name(name) => CapitalWord(name)
    case Member(enum, key) => CapitalWord(enum) && IsWord(key)
    case Lits(values) => values != [] && LiteralTexts(values)
    case Arr(elem) => Printable(elem)
    case Rec(value) => Printable(value)
    case Partial(name) => IsWord(name)
    case Union(members) => |members| >= 2 && AllPrintable(members) && Readable(members)
    case Obj(fields) => AllFieldsPrintable(fields)
  }

  predicate AllPrintable(ts: seq<Ty>)
    decreases ts, 1
  {
    ts == [] || (Printable(ts[0]) && AllPrintable(ts[1..]))
  }

  /** The fields of an object are told apart by `;`, so no field type may hold one. */
  predicate AllFieldsPrintable(fields: seq<FieldTy>)
    decreases fields, 1
  {
    || fields == []
    || (IsWord(fields[0].name) && Printable(fields[0].ty) && ';' !in Print(fields[0].ty) && AllFieldsPrintable(fields[1..]))
  }

  /** The same without a word about `;`. */
  predicate AllFieldsNamed(fields: seq<FieldTy>) {
    fields == [] || (IsWord(fields[0].name) && Printable(fields[0].ty) && AllFieldsNamed(fields[1..]))
  }

  // ---- the shape of printed text

  /** Characters on one line, no comment, and no word in front of a parenthesis. */
  predicate Tidy(s: string) {
    forall i :: 0 <= i < |s| ==>
      !IsLineEnd(s[i]) && s[i] != '*' && (s[i] == '(' && i > 0 ==> s[i - 1] == ' ' || s[i - 1] == '(')
  }

  predicate Opens(s: string) {
    s == "" || s[|s| - 1] == ' ' || s[|s| - 1] == '('
  }

  lemma TidyConcat(a: string, b: string)
    requires Tidy(a) && Tidy(b)
    requires b == "" || b[0] != '(' || Opens(a)
    ensures Tidy(a + b)
  {
  }

  /** The text of one member. */
  predicate Piece(s: string) {
    IsMember(s) && Tidy(s)
  }

  predicate AllPiece(parts: seq<string>) {
    forall i :: 0 <= i < |parts| ==> Piece(parts[i])
  }

  /** The text of a whole type. */
  predicate Whole(s: string) {
    s != "" && Trimmed(s) && Balanced(s) && Tidy(s)
  }

  lemma PieceIsWhole(s: string)
    requires Piece(s)
    ensures Whole(s)
  {
  }

  lemma WholeConcat(a: string, b: string)
    requires Whole(a) && Whole(b)
    ensures Whole(a + " | " + b)
  {
    hide Level, Floor, NoTopBar, IsSpace, IsLineEnd;
    BarIsBalanced();
    BalancedConcat(a, " | ");
    BalancedConcat(a + " | ", b);
    BarIsTidy();
    TidyConcat(a, " | ");
    TidyConcat(a + " | ", b);
  }

  lemma BarIsTidy()
    ensures Tidy(" | ")
  {
  }

  lemma {:induction false} BarsWhole(parts: seq<string>)
    requires parts != [] && AllPiece(parts)
    ensures Whole(Bars(parts))
  {
    hide Piece, Whole;
    PieceIsWhole(parts[0]);
    if |parts| > 1 {
      BarsWhole(parts[1..]);
      WholeConcat(parts[0], Bars(parts[1..]));
    }
  }

  /** Text between brackets is one member, whatever is inside. */
  lemma EnclosedPiece(open: char, s: string, close: char)
    requires Bracket(open) == 1 && Bracket(close) == -1 && Balanced(s) && Tidy(s)
    requires open == '(' || s == "" || s[0] != '('
    ensures Piece([open] + s + [close])
  {
    Enclosed(open, s, close);
    hide Balanced, Atom;
    assert Tidy([open]) && Tidy([close]);
    TidyConcat([open], s);
    TidyConcat([open] + s, [close]);
    assert ([open] + s + [close])[0] == open;
  }

  lemma PieceConcat(a: string, b: string)
    requires Piece(a) && Piece(b)
    requires b[0] != '(' || Opens(a)
    ensures Piece(a + b)
  {
    BalancedConcat(a, b);
    TidyConcat(a, b);
    hide Atom, Tidy;
  }

  lemma FlatPiece(s: string)
    requires s != "" && Trimmed(s) && Flat(s)
    requires forall i :: 0 <= i < |s| ==> !IsLineEnd(s[i]) && s[i] != '*'
    ensures Piece(s)
  {
    FlatIsAtom(s);
    hide Atom;
  }

  lemma WordPiece(s: string)
    requires IsWord(s)
    ensures Piece(s)
  {
    FlatPiece(s);
  }

  // ---- what is printed

  function Parts(t: Ty): seq<string> {
    match t
    case Lits(values) => Quoted(values)
    case Union(members) => Wraps(members)
    case _ => [Print(t)]
  }

  lemma QuotedPiece(value: string)
    requires LiteralText(value)
    ensures Piece("'" + value + "'")
  {
    FlatPiece("'" + value + "'");
  }

  lemma {:induction false} QuotedPieces(values: seq<string>)
    requires LiteralTexts(values)
    ensures AllPiece(Quoted(values))
  {
    hide Piece, LiteralText;
    if values != [] {
      QuotedPiece(values[0]);
      QuotedPieces(values[1..]);
    }
  }

  lemma WordsPiece(a: string, b: string)
    requires IsWord(a) && IsWord(b)
    ensures Piece(a + "." + b)
  {
    FlatPiece(a + "." + b);
  }

  lemma ArrayPiece(elem: string)
    requires Piece(elem)
    ensures Piece(elem + "[]")
  {
    EnclosedPiece('[', "", ']');
    hide IsMember, Tidy;
    assert ['['] + "" + [']'] == "[]";
    PieceConcat(elem, "[]");
  }

  lemma RecordPiece(value: string)
    requires Whole(value)
    ensures Piece(RECORD + " " + value + ">")
  {
    hide Level, Floor, NoTopBar;
    var inner := "string, " + value;
    FlatPiece("string, ,");
    FlatIsAtom("string, ");
    BalancedConcat("string, ", value);
    TidyConcat("string, ", value);
    EnclosedPiece('<', inner, '>');
    WordPiece("Record");
    hide *;
    PieceConcat("Record", ['<'] + inner + ['>']);
    RecordText(value);
  }

  lemma RecordText(value: string)
    ensures "Record" + (['<'] + ("string, " + value) + ['>']) == RECORD + " " + value + ">"
  {
  }

  lemma PartialPiece(name: string)
    requires IsWord(name)
    ensures Piece(PartialText(name))
  {
    WordPiece("Partial");
    WordPiece(name);
    hide Level, Floor, NoTopBar;
    assert name[0] != '(';
    EnclosedPiece('<', name, '>');
    hide *;
    PieceConcat("Partial", ['<'] + name + ['>']);
    PartialSpelled(name);
  }

  lemma PartialSpelled(name: string)
    ensures "Partial" + (['<'] + name + ['>']) == PartialText(name)
  {
  }

  lemma ParenPiece(text: string)
    requires Whole(text)
    ensures Piece("(" + text + ")")
  {
    hide Balanced, Tidy;
    EnclosedPiece('(', text, ')');
  }

  lemma WrapPiece(t: Ty)
    requires AllPiece(Parts(t)) && Print(t) == Bars(Parts(t)) && Parts(t) != []
    ensures Whole(Print(t)) && Piece(Wrap(t))
  {
    hide Piece, Whole, Print;
    BarsWhole(Parts(t));
    if t.Union? || (t.Lits? && |t.values| > 1) {
      ParenPiece(Print(t));
    } else {
      assert |Parts(t)| == 1;
      assert Bars(Parts(t)) == Parts(t)[0];
    }
  }

  lemma {:induction false} Printed(t: Ty)
    requires Printable(t)
    ensures Parts(t) != [] && AllPiece(Parts(t)) && Print(t) == Bars(Parts(t))
    ensures Whole(Print(t)) && Piece(Wrap(t))
    decreases t, 1
  {
    hide Piece, Whole, LiteralTexts, IsWord, CapitalWord, Readable;
    match t {
      case Simple(word) => SimplePiece(word);
      case Undef => SimplePiece("undefined");
      case Name(name) => CapitalMeans(name); WordPiece(name);
      case Member(enum, key) => CapitalMeans(enum); WordsPiece(enum, key);
      case Lits(values) => QuotedPieces(values);
      case Arr(elem) => Printed(elem); ArrayPiece(Wrap(elem));
      case Rec(value) => Printed(value); RecordPiece(Print(value));
      case Partial(name) => PartialPiece(name);
      case Union(members) => AllPrinted(members);
      case Obj(fields) => ObjectPiece(t);
    }
    WrapPiece(t);
  }

  lemma CapitalMeans(s: string)
    ensures CapitalWord(s) ==> IsWord(s)
  {
  }

  lemma SimplePiece(word: string)
    requires word in SIMPLE || word == "undefined"
    ensures Piece(word)
  {
    hide Piece;
    WordPiece(word);
  }

  lemma {:induction false} AllPrinted(ts: seq<Ty>)
    requires AllPrintable(ts)
    ensures AllPiece(Wraps(ts))
    decreases ts, 0
  {
    hide Piece, Wrap, Printable;
    if ts != [] {
      Printed(ts[0]);
      AllPrinted(ts[1..]);
    }
  }

  /** Pieces that can be joined inside braces. */
  predicate Inner(s: string) {
    Balanced(s) && Tidy(s)
  }

  lemma InnerConcat(a: string, b: string)
    requires Inner(a) && Inner(b)
    requires b == "" || b[0] != '(' || Opens(a)
    ensures Inner(a + b)
  {
    BalancedConcat(a, b);
    TidyConcat(a, b);
  }

  lemma FlatInner(s: string)
    requires Flat(s) && forall i :: 0 <= i < |s| ==> !IsLineEnd(s[i]) && s[i] != '*'
    ensures Inner(s)
  {
    FlatIsAtom(s);
  }

  lemma FlatChar(c: char)
    requires c == ';' || c == ' '
    ensures Inner([c])
  {
    FlatInner([c]);
  }

  /** The text in front of the type of a field. */
  function FieldHead(f: FieldTy, padded: bool): string {
    (if padded then " " else "") + f.name + (if f.optional then "?" else "") + ": "
  }

  lemma FieldHeadInner(f: FieldTy, padded: bool)
    requires IsWord(f.name)
    ensures Inner(FieldHead(f, padded)) && Opens(FieldHead(f, padded)) && ';' !in FieldHead(f, padded)
    ensures FieldHead(f, padded) != "" && FieldHead(f, padded)[0] != '('
  {
    FlatInner(FieldHead(f, padded));
  }

  lemma FieldPrinted(f: FieldTy, padded: bool)
    requires IsWord(f.name) && Printable(f.ty) && ';' !in Print(f.ty)
    ensures (var text := (if padded then " " else "") + FieldText(f);
             Inner(text) && text == FieldHead(f, padded) + Print(f.ty) && text != "" && text[0] != '(' && ';' !in text)
    decreases f, 1
  {
    hide Inner, IsWord, Printable, Print, Opens;
    Printed(f.ty);
    WholeIsInner(Print(f.ty));
    FieldHeadInner(f, padded);
    InnerConcat(FieldHead(f, padded), Print(f.ty));
    assert (if padded then " " else "") + FieldText(f) == FieldHead(f, padded) + Print(f.ty);
  }

  lemma WholeIsInner(s: string)
    ensures Whole(s) ==> Inner(s)
  {
  }

  lemma {:induction false} FieldsPrinted(fields: seq<FieldTy>, padded: bool)
    requires fields != [] && AllFieldsPrintable(fields)
    ensures (var text := Join(Pieces(fields, padded), ';'); Inner(text) && text != "" && text[0] != '(')
    ensures forall i :: 0 <= i < |fields| ==> ';' !in Pieces(fields, padded)[i]
    decreases fields, 0
  {
    hide Inner, FieldText, IsWord, Printable, Flat;
    FieldPrinted(fields[0], padded);
    var first := (if padded then " " else "") + FieldText(fields[0]);
    assert Pieces(fields, padded)[0] == first;
    if |fields| > 1 {
      FieldsPrinted(fields[1..], true);
      var rest := Join(Pieces(fields[1..], true), ';');
      FlatChar(';');
      InnerConcat(first, ";");
      InnerConcat(first + ";", rest);
      assert Pieces(fields, padded)[1..] == Pieces(fields[1..], true);
      assert Join(Pieces(fields, padded), ';') == first + [';'] + rest;
    }
  }

  lemma ObjectPiece(t: Ty)
    requires t.Obj? && AllFieldsPrintable(t.fields)
    ensures Piece(Print(t))
    decreases t, 0
  {
    hide AllFieldsPrintable, Pieces, Inner, Piece, Join;
    if t.fields == [] {
      BracesPiece("");
      assert ['{'] + "" + ['}'] == Print(t);
    } else {
      FieldsPrinted(t.fields, false);
      var text := Join(Pieces(t.fields, false), ';');
      FlatChar(' ');
      InnerConcat(" ", text);
      InnerConcat(" " + text, " ");
      BracesPiece(" " + text + " ");
      assert ['{'] + (" " + text + " ") + ['}'] == "{ " + text + " }";
      assert Print(t) == "{ " + text + " }";
    }
  }

  lemma BracesPiece(s: string)
    requires s == "" || (Inner(s) && s[0] != '(')
    ensures Piece(['{'] + s + ['}'])
  {
    EnclosedPiece('{', s, '}');
  }
}
