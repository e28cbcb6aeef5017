/** On which types the schema and the clients agree that a property may be left out. */
module UndefinedAgreement {
  import opened JsText
  import opened TypeText
  import opened TypeCompiler
  import opened BracketText
  import opened PrintedType
  import opened TypeRoundTrip
  import opened UndefinedTests

  const UNDEFINED: string := "undefined"

  // ---- what a search hit is, in the type

  /** The text of the type begins with `undefined`: the type itself, or an array of such. */
  predicate Leads(t: Ty) {
    t.Undef? || (t.Arr? && Leads(t.elem))
  }

  predicate LaterLeads(members: seq<Ty>) {
    members != [] && AnyLeads(members[1..])
  }

  predicate AnyLeads(members: seq<Ty>) {
    members != [] && (Leads(members[0]) || AnyLeads(members[1..]))
  }

  /** Somewhere in the type, at any depth, a union has a later member that begins with `undefined`. */
  predicate Hit(t: Ty)
    decreases t, 0
  {
    match t
    case Arr(elem) => Hit(elem)
    case Rec(value) => Hit(value)
    case Union(members) => LaterLeads(members) || AnyHit(members)
    case Obj(fields) => AnyFieldHit(fields)
    case _ => false
  }

  predicate AnyHit(members: seq<Ty>)
    decreases members, 1
  {
    members != [] && (Hit(members[0]) || AnyHit(members[1..]))
  }

  predicate AnyFieldHit(fields: seq<FieldTy>)
    decreases fields, 1
  {
    fields != [] && (Hit(fields[0].ty) || AnyFieldHit(fields[1..]))
  }

  // ---- hits in texts that are put together

  /** Text that may still grow into `undefined`. */
  predicate Cut(s: string) {
    |s| < |UNDEFINED| && s <= UNDEFINED
  }

  predicate DecidedAt(s: string, i: int) {
    0 <= i < |s| && s[i] == '|' ==> !Cut(TrimStart(s[i + 1..]))
  }

  /** What follows a bar is decided, whatever comes behind the text. */
  ghost predicate Decided(s: string) {
    forall i :: DecidedAt(s, i)
  }

  lemma PrefixOfConcat(u: string, a: string, b: string)
    ensures u <= a + b ==> u <= a || a <= u
    ensures a + b <= u ==> a <= u
    ensures u <= a ==> u <= a + b
  {
    assert |a| <= |u| && u <= a + b ==> a == (a + b)[..|a|] == u[..|a|];
    assert |u| <= |a| ==> (a + b)[..|u|] == a[..|u|];
    assert a + b <= u ==> a == (a + b)[..|a|] == u[..|a|];
  }

  lemma CutConcat(a: string, b: string)
    requires !Cut(a)
    ensures !Cut(a + b) && (StartsWith(a + b, UNDEFINED) <==> StartsWith(a, UNDEFINED))
  {
    PrefixOfConcat(UNDEFINED, a, b);
    assert UNDEFINED <= UNDEFINED;
    assert |a| >= |UNDEFINED| && a <= UNDEFINED ==> a == UNDEFINED;
  }

  lemma BarInFront(a: string, b: string, i: nat)
    requires i < |a| && a[i] == '|' && DecidedAt(a, i)
    ensures DecidedAt(a + b, i) && (BarredAt(a + b, i) <==> BarredAt(a, i))
  {
    hide TrimStart, Cut;
    var x := TrimStart(a[i + 1..]);
    assert (a + b)[i + 1..] == a[i + 1..] + b;
    NothingIsCut();
    TrimStartFront(a[i + 1..], b);
    CutConcat(x, b);
  }

  lemma NothingIsCut()
    ensures Cut("")
  {
  }

  lemma BarBehind(a: string, b: string, i: nat)
    requires i < |b|
    ensures (DecidedAt(a + b, |a| + i) <==> DecidedAt(b, i)) && (BarredAt(a + b, |a| + i) <==> BarredAt(b, i))
  {
    assert (a + b)[|a| + i + 1..] == b[i + 1..];
    hide TrimStart, Cut;
  }

  lemma DecidedConcat(a: string, b: string)
    requires Decided(a) && Decided(b)
    ensures Decided(a + b) && (BarredUndefined(a + b) <==> BarredUndefined(a) || BarredUndefined(b))
  {
    hide DecidedAt, BarredAt, Cut;
    var s := a + b;
    forall i ensures DecidedAt(s, i) {
      AtConcat(a, b, i);
    }
    if BarredUndefined(s) {
      var i :| 0 <= i < |s| && BarredAt(s, i);
      AtConcat(a, b, i);
      HitAt(a, i);
      HitAt(b, i - |a|);
    }
    if BarredUndefined(a) {
      var i :| 0 <= i < |a| && BarredAt(a, i);
      AtConcat(a, b, i);
      HitAt(s, i);
    }
    if BarredUndefined(b) {
      var i :| 0 <= i < |b| && BarredAt(b, i);
      AtConcat(a, b, |a| + i);
      HitAt(s, |a| + i);
    }
  }

  lemma HitAt(s: string, i: int)
    ensures BarredAt(s, i) ==> BarredUndefined(s)
  {
    hide TrimStart;
  }

  lemma AtConcat(a: string, b: string, i: int)
    requires DecidedAt(a, i) && DecidedAt(b, i - |a|)
    ensures DecidedAt(a + b, i)
    ensures BarredAt(a + b, i) <==> BarredAt(a, i) || BarredAt(b, i - |a|)
  {
    hide Cut, TrimStart;
    if 0 <= i < |a| {
      if a[i] == '|' {
        BarInFront(a, b, i);
      }
    } else if |a| <= i < |a| + |b| {
      BarBehind(a, b, i - |a|);
    }
  }

  lemma NoBarDecided(s: string)
    requires '|' !in s
    ensures Decided(s) && !BarredUndefined(s)
  {
    hide Cut, TrimStart;
  }

  /** A bar between two texts: a hit there is a text behind it that begins with `undefined`. */
  lemma BarBetween(a: string, b: string)
    requires Decided(a) && Decided(b) && b != "" && !IsSpace(b[0]) && !Cut(b)
    ensures Decided(a + " | " + b)
    ensures BarredUndefined(a + " | " + b) <==> BarredUndefined(a) || StartsWith(b, UNDEFINED) || BarredUndefined(b)
  {
    hide Decided, BarredUndefined, Cut, TrimStart;
    var bar := "| " + b;
    NoBarDecided(" ");
    assert a + " | " + b == (a + " ") + bar;
    BarFirst(b);
    DecidedConcat(a, " ");
    DecidedConcat(a + " ", bar);
  }

  lemma BarFirst(b: string)
    requires Decided(b) && b != "" && !IsSpace(b[0]) && !Cut(b)
    ensures Decided("| " + b) && (BarredUndefined("| " + b) <==> StartsWith(b, UNDEFINED) || BarredUndefined(b))
  {
    hide DecidedAt, BarredAt, Cut, IsSpace;
    var s := "| " + b;
    forall i ensures DecidedAt(s, i) && (BarredAt(s, i) <==> (i == 0 && StartsWith(b, UNDEFINED)) || BarredAt(b, i - 2)) {
      BarFirstAt(b, i);
    }
    if BarredUndefined(b) {
      var i :| 0 <= i < |b| && BarredAt(b, i);
      assert BarredAt(s, i + 2);
      HitAt(s, i + 2);
    }
    if BarredUndefined(s) {
      var i :| 0 <= i < |s| && BarredAt(s, i);
      HitAt(b, i - 2);
    }
    assert BarredAt(s, 0) <==> StartsWith(b, UNDEFINED) || BarredAt(b, -2);
    NothingBefore(b);
    HitAt(s, 0);
  }

  lemma NothingBefore(b: string)
    ensures !BarredAt(b, -2)
  {
  }

  lemma BarFirstAt(b: string, i: int)
    requires DecidedAt(b, i - 2) && b != "" && !IsSpace(b[0]) && !Cut(b)
    ensures DecidedAt("| " + b, i)
    ensures BarredAt("| " + b, i) <==> (i == 0 && StartsWith(b, UNDEFINED)) || BarredAt(b, i - 2)
  {
    if i == 0 {
      BarInFrontOf(b);
    } else if 2 <= i < |b| + 2 {
      hide DecidedAt, BarredAt;
      BarBehind("| ", b, i - 2);
    } else {
      hide Cut, TrimStart, IsSpace;
      assert i == 1 ==> ("| " + b)[i] == ' ';
    }
  }

  lemma BarInFrontOf(b: string)
    requires b != "" && !IsSpace(b[0]) && !Cut(b)
    ensures DecidedAt("| " + b, 0) && !BarredAt(b, -2)
    ensures BarredAt("| " + b, 0) <==> StartsWith(b, UNDEFINED)
  {
    hide Cut, TrimStart, IsSpace;
    assert ("| " + b)[1..] == " " + b;
    TrimStartSpace(b);
  }

  // ---- how printed types begin

  lemma LeadsPrinted(t: Ty)
    requires Printable(t)
    ensures Wrap(t) != "" && !Cut(Wrap(t)) && (StartsWith(Wrap(t), UNDEFINED) <==> Leads(t))
    decreases t
  {
    WrapUndefined(t);
    hide Printable, Pieces;
    match t {
      case Undef => SelfStarts();
      case Simple(word) => SimpleMeans(t); SimpleStarts(word);
      case Arr(elem) =>
        ArrayMeans(elem);
        LeadsPrinted(elem);
        CutConcat(Wrap(elem), "[]");
      case _ => OtherStarts(t); NotU(Wrap(t));
    }
  }

  lemma ArrayMeans(elem: Ty)
    ensures Printable(Arr(elem)) ==> Printable(elem)
    ensures Wrap(Arr(elem)) == Wrap(elem) + "[]"
  {
  }

  lemma SelfStarts()
    ensures !Cut(UNDEFINED) && StartsWith(UNDEFINED, UNDEFINED) && Wrap(Undef) == UNDEFINED
  {
  }

  lemma SimpleStarts(word: string)
    requires word in SIMPLE
    ensures word != "" && !Cut(word) && !StartsWith(word, UNDEFINED) && Wrap(Simple(word)) == word
  {
    assert UNDEFINED[2] == 'd' && UNDEFINED[0] == 'u';
    assert word[0] != 'u' || (|word| > 2 && word[2] != 'd');
  }

  lemma OtherStarts(t: Ty)
    requires Printable(t) && !t.Undef? && !t.Simple? && !t.Arr? && Wrap(t) != ""
    ensures Wrap(t)[0] != 'u' && !Leads(t)
  {
    hide Readable, AllPrintable, AllFieldsPrintable, Pieces, Join, Bars;
    match t {
      case Lits(values) => QuoteFirst(values);
      case Rec(value) => RecordFirst(Print(value));
      case Partial(name) => PartialFirst(name);
      case _ =>
    }
  }

  lemma PartialFirst(name: string)
    ensures PartialText(name)[0] == 'P'
  {
  }

  lemma RecordFirst(value: string)
    ensures (RECORD + " " + value + ">")[0] == 'R'
  {
  }

  lemma QuoteFirst(values: seq<string>)
    requires values != []
    ensures Bars(Quoted(values)) != "" && Bars(Quoted(values))[0] == '\''
  {
    assert Quoted(values)[0][0] == '\'';
  }

  lemma NotU(s: string)
    requires s != "" && s[0] != 'u'
    ensures !Cut(s) && !StartsWith(s, UNDEFINED)
  {
    assert UNDEFINED[0] == 'u';
  }

  // ---- hits in printed types

  /** The text is decided, and a search finds `undefined` behind a bar just when `hit` says so. */
  ghost predicate Shows(s: string, hit: bool) {
    Decided(s) && (BarredUndefined(s) <==> hit)
  }

  lemma ShowsPlain(s: string)
    requires '|' !in s
    ensures Shows(s, false)
  {
    hide Decided, BarredUndefined;
    NoBarDecided(s);
  }

  lemma ShowsConcat(a: string, first: bool, b: string, second: bool)
    requires Shows(a, first) && Shows(b, second)
    ensures Shows(a + b, first || second)
  {
    hide Decided, BarredUndefined;
    DecidedConcat(a, b);
  }

  lemma ShowsBetween(open: string, s: string, hit: bool, close: string)
    requires '|' !in open && '|' !in close && Shows(s, hit)
    ensures Shows(open + s + close, hit)
  {
    hide Shows;
    ShowsPlain(open);
    ShowsPlain(close);
    ShowsConcat(open, false, s, hit);
    ShowsConcat(open + s, hit, close, false);
  }

  lemma ShowsBars(first: string, hit: bool, rest: string, leads: bool, more: bool)
    requires Shows(first, hit) && Shows(rest, more)
    requires rest != "" && !IsSpace(rest[0]) && !Cut(rest) && (StartsWith(rest, UNDEFINED) <==> leads)
    ensures Shows(first + " | " + rest, hit || leads || more)
  {
    hide Decided, BarredUndefined, Cut, IsSpace;
    BarBetween(first, rest);
  }

  /** A union begins with its first member. */
  lemma BarsBegin(parts: seq<string>)
    requires parts != [] && parts[0] != ""
    ensures Bars(parts) != "" && Bars(parts)[0] == parts[0][0]
    ensures !Cut(parts[0]) ==> !Cut(Bars(parts)) && (StartsWith(Bars(parts), UNDEFINED) <==> StartsWith(parts[0], UNDEFINED))
  {
    hide Cut;
    BarsUnfold(parts);
    hide Bars;
    if |parts| > 1 {
      ConcatAssoc(parts[0], " | ", Bars(parts[1..]));
      if !Cut(parts[0]) {
        CutConcat(parts[0], " | " + Bars(parts[1..]));
      }
    }
  }

  lemma {:induction false} QuotedShow(values: seq<string>)
    requires values != [] && LiteralTexts(values)
    ensures Shows(Bars(Quoted(values)), false)
  {
    hide Shows, Cut;
    var parts := Quoted(values);
    QuotedPlain(values[0]);
    if |values| > 1 {
      QuotedShow(values[1..]);
      assert parts[1..] == Quoted(values[1..]);
      QuoteFirst(values[1..]);
      NotU(Bars(parts[1..]));
      ShowsBars(parts[0], false, Bars(parts[1..]), false, false);
    }
  }

  lemma QuotedPlain(value: string)
    requires LiteralText(value)
    ensures Shows("'" + value + "'", false)
  {
    ShowsPlain("'" + value + "'");
  }

  lemma {:induction false} PrintedShows(t: Ty)
    requires Printable(t)
    ensures Shows(Print(t), Hit(t)) && Shows(Wrap(t), Hit(t))
    decreases t, 1
  {
    hide Shows, Hit, LiteralTexts, Readable, AllPrintable, AllFieldsPrintable, Pieces, Bars, Join, SIMPLE, IsWord, CapitalWord;
    HitMeans(t);
    match t {
      case Simple(word) => PlainPrinted(t);
      case Undef => PlainPrinted(t);
      case Name(name) => PlainPrinted(t);
      case Member(enum, key) => PlainPrinted(t);
      case Lits(values) => QuotedShow(values);
      case Arr(elem) => PrintedShows(elem); ShowsBetween("", Wrap(elem), Hit(elem), "[]"); assert "" + Wrap(elem) == Wrap(elem);
      case Rec(value) => PrintedShows(value); RecordPlain(); ShowsBetween(RECORD + " ", Print(value), Hit(value), ">");
      case Partial(name) => PlainPrinted(t);
      case Union(members) => MembersShow(members);
      case Obj(fields) => ObjectShows(fields);
    }
    ShowsBetween("(", Print(t), Hit(t), ")");
  }

  lemma HitMeans(t: Ty)
    ensures match t
            case Arr(elem) => Hit(t) <==> Hit(elem)
            case Rec(value) => Hit(t) <==> Hit(value)
            case Union(members) => Hit(t) <==> LaterLeads(members) || AnyHit(members)
            case Obj(fields) => Hit(t) <==> AnyFieldHit(fields)
            case _ => !Hit(t)
  {
  }

  lemma RecordPlain()
    ensures '|' !in RECORD + " "
  {
  }

  lemma PlainPrinted(t: Ty)
    requires Printable(t) && (t.Simple? || t.Undef? || t.Name? || t.Member? || t.Partial?)
    ensures Shows(Print(t), false)
  {
    PlainText(t);
    hide Shows, Print;
    ShowsPlain(Print(t));
  }

  lemma PlainText(t: Ty)
    requires Printable(t) && (t.Simple? || t.Undef? || t.Name? || t.Member? || t.Partial?)
    ensures '|' !in Print(t)
  {
    match t {
      case Simple(word) => SimpleIsWord(word);
      case _ =>
    }
  }

  lemma SimpleIsWord(word: string)
    requires word in SIMPLE
    ensures '|' !in word
  {
  }

  lemma {:induction false} MembersShow(ts: seq<Ty>)
    requires ts != [] && AllPrintable(ts)
    ensures Shows(Bars(Wraps(ts)), LaterLeads(ts) || AnyHit(ts))
    decreases ts, 0
  {
    hide Shows, Hit, Leads, Printable, Wrap, Cut, IsSpace, Bars;
    var parts := Wraps(ts);
    PrintedShows(ts[0]);
    BarsUnfold(parts);
    if |ts| > 1 {
      var rest := ts[1..];
      assert parts[1..] == Wraps(rest) && Wraps(rest)[0] == Wrap(rest[0]);
      LeadsPrinted(rest[0]);
      WrapNoSpace(rest[0]);
      BarsBegin(Wraps(rest));
      MembersShow(rest);
      ShowsBars(parts[0], Hit(ts[0]), Bars(Wraps(rest)), Leads(rest[0]), LaterLeads(rest) || AnyHit(rest));
    }
  }

  lemma WrapNoSpace(t: Ty)
    requires Printable(t)
    ensures Wrap(t) != "" && !IsSpace(Wrap(t)[0])
  {
    Printed(t);
    hide Wrap, Printable;
  }

  lemma ObjectShows(fields: seq<FieldTy>)
    requires AllFieldsPrintable(fields)
    ensures Shows(Print(Obj(fields)), AnyFieldHit(fields))
    decreases fields, 3
  {
    hide Shows, Hit, AllFieldsPrintable, AnyFieldHit, Pieces, Join;
    if fields == [] {
      NoFieldHit();
      ShowsPlain("{}");
    } else {
      FieldsShow(fields, false);
      ShowsBetween("{ ", Join(Pieces(fields, false), ';'), AnyFieldHit(fields), " }");
    }
  }

  lemma NoFieldHit()
    ensures !AnyFieldHit([])
  {
  }

  lemma {:induction false} FieldsShow(fields: seq<FieldTy>, padded: bool)
    requires fields != [] && AllFieldsPrintable(fields)
    ensures Shows(Join(Pieces(fields, padded), ';'), AnyFieldHit(fields))
    decreases fields, 2
  {
    hide Shows, Hit, Print, Printable, IsWord, FieldText;
    var f := fields[0];
    var first := (if padded then " " else "") + FieldText(f);
    HeadPlain(f, padded);
    PrintedShows(f.ty);
    FieldTextSplit(f, padded);
    ShowsBetween(FieldHead(f, padded), Print(f.ty), Hit(f.ty), "");
    assert FieldHead(f, padded) + Print(f.ty) + "" == first;
    assert Pieces(fields, padded)[0] == first && Pieces(fields, padded)[1..] == Pieces(fields[1..], true);
    if |fields| > 1 {
      FieldsShow(fields[1..], true);
      var rest := Join(Pieces(fields[1..], true), ';');
      ShowsPlain(";");
      ShowsConcat(first, Hit(f.ty), ";", false);
      ShowsConcat(first + ";", Hit(f.ty), rest, AnyFieldHit(fields[1..]));
      assert Join(Pieces(fields, padded), ';') == first + [';'] + rest;
    } else {
      NoFieldHit();
      assert fields[1..] == [];
    }
  }

  lemma HeadPlain(f: FieldTy, padded: bool)
    requires IsWord(f.name)
    ensures '|' !in FieldHead(f, padded)
  {
  }

  lemma FieldTextSplit(f: FieldTy, padded: bool)
    ensures (if padded then " " else "") + FieldText(f) == FieldHead(f, padded) + Print(f.ty)
  {
    hide Print;
  }

  /** A search of a printed type finds `undefined` behind a bar exactly when somewhere in the type
      a union has a later member that begins with it. */
  lemma HitExactly(t: Ty)
    requires Printable(t)
    ensures BarredUndefined(Print(t)) <==> Hit(t)
  {
    hide Print, Hit, Decided, BarredUndefined, Printable;
    PrintedShows(t);
  }

  /** The schema and the clients disagree on a printed type exactly when it hides a hit without
      having `undefined` for a member, or has `undefined` for a member and no hit. */
  lemma AgreeExactly(t: Ty)
    requires Printable(t)
    ensures (SchemaOptional(false, Print(t)) <==> ClientOptional(false, Print(t))) <==> (Hit(t) <==> Admits(t))
  {
    hide Print, Hit, Admits, Printable, TypeAdmitsUndefined, BarredUndefined;
    AdmitsRead(t);
    HitExactly(t);
  }

  /** The second kind of disagreement: `undefined` alone, or only in front. */
  lemma AdmitsWithoutHit(t: Ty)
    ensures Admits(t) && !Hit(t) ==> t.Undef? || (t.members != [] && t.members[0].Undef? && Undef !in t.members[1..])
  {
    hide Hit;
    HitMeans(t);
    if t.Union? && t.members != [] {
      assert t.members == [t.members[0]] + t.members[1..];
      LaterUndef(t.members[1..]);
    }
  }

  lemma {:induction false} LaterUndef(members: seq<Ty>)
    ensures Undef in members ==> AnyLeads(members)
  {
    if members != [] {
      LaterUndef(members[1..]);
      assert members == [members[0]] + members[1..];
    }
  }
}
