/** Type texts as the compiler prints them, with `import("...").` in front of names and comments in
    inline objects: they compile like the plain text. */
module Decorated {
  import opened JsText
  import opened Schema
  import opened TypeText
  import opened TypeCompiler
  import opened BracketText
  import opened PrintedType
  import opened TypeReading
  import opened Properties
  import opened TypeRoundTrip

  datatype Insert = Import(path: string) | Comment(text: string)

  function Spelled(i: Insert): string {
    match i
    case Import(path) => "import(" + path + ")."
    case Comment(text) => "/*" + text + "*/"
  }

  predicate WellMade(i: Insert) {
    match i
    case Import(path) => path != "" && ')' !in path
    case Comment(text) => !HasPair(text, '*', '/') && Balanced(text)
  }

  type Tail = seq<(Insert, string)>

  predicate AllWellMade(tail: Tail) {
    forall i :: 0 <= i < |tail| ==> WellMade(tail[i].0)
  }

  predicate OnlyImports(tail: Tail) {
    forall i :: 0 <= i < |tail| ==> tail[i].0.Import?
  }

  /** The pieces of a text with the inserts between them. */
  function Woven(first: string, tail: Tail): string
    decreases |tail|
  {
    if tail == [] then first else first + Spelled(tail[0].0) + Woven(tail[0].1, tail[1..])
  }

  /** The same with the comments only. */
  function Commented(first: string, tail: Tail): string
    decreases |tail|
  {
    if tail == [] then first
    else first + (if tail[0].0.Import? then "" else Spelled(tail[0].0)) + Commented(tail[0].1, tail[1..])
  }

  function Plain(first: string, tail: Tail): string
    decreases |tail|
  {
    if tail == [] then first else first + Plain(tail[0].1, tail[1..])
  }

  // ---- imports

  predicate NoCallBefore(s: string, k: int) {
    forall i :: 0 <= i < k && i + 1 < |s| ==> !(s[i] == 't' && s[i + 1] == '(')
  }

  lemma NoCallBehind(s: string, k: int)
    requires s != "" && k >= 6 && NoCallBefore(s, k)
    ensures NoCallBefore(s[1..], k - 1) && ImportLength(s) == 0
  {
    NotAnImport(s);
    hide ImportLength;
  }

  lemma StripNone(s: string)
    requires s != "" && ImportLength(s) == 0
    ensures StripImports(s) == [s[0]] + StripImports(s[1..])
  {
    hide ImportLength;
  }

  lemma {:induction false} SkipChunk(a: string, tail: string)
    requires NoCallBefore(a + tail, |a| + 5)
    ensures StripImports(a + tail) == a + StripImports(tail)
  {
    hide *;
    var s := a + tail;
    if a == "" {
      assert s == tail && a + StripImports(tail) == StripImports(tail);
    } else {
      assert s[1..] == a[1..] + tail && s[0] == a[0];
      NoCallBehind(s, |a| + 5);
      SkipChunk(a[1..], tail);
      StripNone(s);
      ConcatAssoc([a[0]], a[1..], StripImports(tail));
      assert [a[0]] + a[1..] == a;
    }
  }

  lemma ImportCalls(s: string)
    ensures ImportLength(s) > 0 ==> |s| > 6 && s[5] == 't' && s[6] == '('
  {
    assert StartsWith(s, "import(") ==> |s| >= 7 && s[5] == "import("[5] && s[6] == "import("[6];
  }

  lemma NotAnImport(s: string)
    requires NoCallBefore(s, 6)
    ensures ImportLength(s) == 0
  {
    hide ImportLength;
    ImportCalls(s);
  }

  lemma ImportStripped(path: string, rest: string)
    requires path != "" && ')' !in path
    ensures StripImports("import(" + path + ")." + rest) == StripImports(rest)
  {
    var s := "import(" + path + ")." + rest;
    ImportIs(s, path, rest);
    hide StripImports, ImportLength;
    StripStep(s, |path| + 9);
    assert s[|path| + 9..] == rest;
  }

  lemma StripStep(s: string, n: nat)
    requires 0 < n == ImportLength(s)
    ensures n <= |s| && StripImports(s) == StripImports(s[n..])
  {
    hide ImportLength;
  }

  lemma ImportIs(s: string, path: string, rest: string)
    requires s == "import(" + path + ")." + rest && path != "" && ')' !in path
    ensures ImportLength(s) == |path| + 9
  {
    assert "import(" <= s;
    IndexIs(s, ')', 7, 7 + |path|);
    assert s[8 + |path|] == '.';
  }

  lemma ChunkThenImport(a: string, path: string, rest: string)
    requires !HasPair(a, 't', '(')
    ensures NoCallBefore(a + ("import(" + path + ")." + rest), |a| + 5)
  {
    var s := a + ("import(" + path + ")." + rest);
    assert forall k :: 0 <= k < 7 ==> s[|a| + k] == "import("[k];
    forall i | 0 <= i < |a| + 5 && i + 1 < |s| ensures !(s[i] == 't' && s[i + 1] == '(') {
      assert i + 1 < |a| ==> s[i] == a[i] && s[i + 1] == a[i + 1];
    }
  }

  lemma PairsStay(a: string, b: string, c: char, d: char)
    ensures HasPair(a, c, d) || HasPair(b, c, d) ==> HasPair(a + b, c, d)
  {
    if HasPair(a, c, d) {
      var i :| 0 <= i < |a| - 1 && a[i] == c && a[i + 1] == d;
      assert (a + b)[i] == c && (a + b)[i + 1] == d;
    }
    if HasPair(b, c, d) {
      var i :| 0 <= i < |b| - 1 && b[i] == c && b[i + 1] == d;
      assert (a + b)[|a| + i] == c && (a + b)[|a| + i + 1] == d;
    }
  }

  /** Exactly the imports are stripped. */
  lemma {:induction false} ImportsGo(first: string, tail: Tail)
    requires AllWellMade(tail) && !HasPair(Commented(first, tail), 't', '(')
    ensures StripImports(Woven(first, tail)) == Commented(first, tail)
    decreases |tail|
  {
    hide StripImports, HasPair;
    if tail == [] {
      StripImportsSame(first);
    } else {
      var i, x, more := tail[0].0, tail[0].1, tail[1..];
      var rest := Commented(x, more);
      if i.Import? {
        assert first + "" + rest == first + rest;
        PairsStay(first, rest, 't', '(');
        ImportsGo(x, more);
        var w := Woven(x, more);
        ChunkThenImport(first, i.path, w);
        assert first + Spelled(i) + w == first + ("import(" + i.path + ")." + w);
        SkipChunk(first, "import(" + i.path + ")." + w);
        ImportStripped(i.path, w);
      } else {
        var joined := first + Spelled(i) + x;
        JoinedComment(first, i, x, more);
        ImportsGo(joined, more);
      }
    }
  }

  /** Around a comment the pieces can be joined. */
  lemma JoinedComment(first: string, i: Insert, x: string, more: Tail)
    requires i.Comment?
    ensures Woven(first + Spelled(i) + x, more) == Woven(first, [(i, x)] + more)
    ensures Commented(first + Spelled(i) + x, more) == Commented(first, [(i, x)] + more)
  {
    hide Spelled;
    var tail := [(i, x)] + more;
    assert tail[1..] == more;
    if more != [] {
      WovenShift(first + Spelled(i), x, more);
    }
  }

  lemma WovenShift(a: string, x: string, more: Tail)
    ensures Woven(a + x, more) == a + Woven(x, more)
    ensures Commented(a + x, more) == a + Commented(x, more)
    ensures Plain(a + x, more) == a + Plain(x, more)
  {
    Unwoven(a + x, more);
    Unwoven(x, more);
    hide *;
    if more != [] {
      var b, c := Spelled(more[0].0), if more[0].0.Import? then "" else Spelled(more[0].0);
      var w, d, e := Woven(more[0].1, more[1..]), Commented(more[0].1, more[1..]), Plain(more[0].1, more[1..]);
      ConcatAssoc(a + x, b, w);
      ConcatAssoc(a, x, b + w);
      ConcatAssoc(x, b, w);
      ConcatAssoc(a + x, c, d);
      ConcatAssoc(a, x, c + d);
      ConcatAssoc(x, c, d);
      ConcatAssoc(a, x, e);
    }
  }

  lemma Unwoven(first: string, tail: Tail)
    ensures tail == [] ==> Woven(first, tail) == Commented(first, tail) == Plain(first, tail) == first
    ensures tail != [] ==>
              (var i, x, more := tail[0].0, tail[0].1, tail[1..];
               && Woven(first, tail) == first + Spelled(i) + Woven(x, more)
               && Commented(first, tail) == first + (if i.Import? then "" else Spelled(i)) + Commented(x, more)
               && Plain(first, tail) == first + Plain(x, more))
  {
    hide Spelled;
  }

  // ---- comments

  lemma NoCommentHere(s: string)
    requires s != "" && (|s| >= 2 ==> s[1] != '*')
    ensures StripComments(s) == [s[0]] + StripComments(s[1..])
  {
    hide CommentEnd;
  }

  lemma {:induction false} SkipNoStar(a: string, tail: string)
    requires '*' !in a && (tail == "" || tail[0] != '*')
    ensures StripComments(a + tail) == a + StripComments(tail)
  {
    hide *;
    var s := a + tail;
    if a == "" {
      assert s == tail && a + StripComments(tail) == StripComments(tail);
    } else {
      assert s[1..] == a[1..] + tail && s[0] == a[0];
      assert |s| >= 2 ==> s[1] == if |a| >= 2 then a[1] else tail[0];
      SkipNoStar(a[1..], tail);
      NoCommentHere(s);
      ConcatAssoc([a[0]], a[1..], StripComments(tail));
      assert [a[0]] + a[1..] == a;
    }
  }

  lemma {:induction false} EndFound(s: string, from: nat, at: nat)
    requires from <= at < |s| - 1 && s[at] == '*' && s[at + 1] == '/'
    requires forall i :: from <= i < at ==> !(s[i] == '*' && s[i + 1] == '/')
    ensures CommentEnd(s, from) == at
    decreases at - from
  {
    if from < at {
      EndFound(s, from + 1, at);
    }
  }

  lemma CommentStripped(text: string, rest: string)
    requires !HasPair(text, '*', '/')
    ensures StripComments("/*" + text + "*/" + rest) == StripComments(rest)
  {
    var s := "/*" + text + "*/" + rest;
    assert forall k :: 0 <= k < |text| ==> s[2 + k] == text[k];
    assert s[2 + |text|] == '*' && s[3 + |text|] == '/';
    forall i | 2 <= i < 2 + |text| ensures !(s[i] == '*' && s[i + 1] == '/') {
      assert i + 1 < 2 + |text| ==> s[i] == text[i - 2] && s[i + 1] == text[i - 1];
    }
    EndFound(s, 2, 2 + |text|);
    assert s[4 + |text|..] == rest;
  }

  /** Exactly the comments are stripped. */
  lemma {:induction false} CommentsGo(first: string, tail: Tail)
    requires AllWellMade(tail) && '*' !in Plain(first, tail)
    ensures StripComments(Commented(first, tail)) == Plain(first, tail)
    decreases |tail|
  {
    hide StripComments, HasPair;
    if tail == [] {
      NoComments(first);
    } else {
      var i, x, more := tail[0].0, tail[0].1, tail[1..];
      var rest, plain := Commented(x, more), Plain(x, more);
      assert forall k :: 0 <= k < |first| ==> (first + plain)[k] == first[k];
      assert forall k :: 0 <= k < |plain| ==> (first + plain)[|first| + k] == plain[k];
      if i.Import? {
        assert first + "" + rest == first + rest;
        WovenShift(first, x, more);
        CommentsGo(first + x, more);
      } else {
        CommentsGo(x, more);
        SkipNoStar(first, Spelled(i) + rest);
        assert first + Spelled(i) + rest == first + (Spelled(i) + rest);
        CommentStripped(i.text, rest);
      }
    }
  }

  // ---- brackets

  lemma InsertBalanced(a: string, c: string, b: string)
    requires Balanced(a + b) && Balanced(c)
    ensures Balanced(a + c + b)
  {
    hide Level, Floor;
    LevelConcat(a, b);
    FloorConcat(a, b, 0);
    LevelConcat(a, c);
    LevelConcat(a + c, b);
    FloorConcat(a, c, 0);
    FloorConcat(a + c, b, 0);
    LevelNotBelow(a, 0);
    if Level(a) > 0 {
      AboveFloor(c, 0, Level(a));
    }
  }

  lemma {:induction false} LevelNotBelow(s: string, d: int)
    requires Floor(s, d) && d >= 0
    ensures d + Level(s) >= 0
  {
    if s != "" {
      LevelNotBelow(s[1..], d + Bracket(s[0]));
    }
  }

  lemma CommentBalanced(text: string)
    requires Balanced(text)
    ensures Balanced("/*" + text + "*/")
  {
    FlatIsAtom("/*");
    FlatIsAtom("*/");
    hide Level, Floor;
    BalancedConcat("/*", text);
    BalancedConcat("/*" + text, "*/");
  }

  lemma {:induction false} CommentedBalanced(before: string, first: string, tail: Tail)
    requires AllWellMade(tail) && Balanced(before + Plain(first, tail))
    ensures Balanced(before + Commented(first, tail))
    decreases |tail|
  {
    hide Balanced;
    if tail != [] {
      var i, x, more := tail[0].0, tail[0].1, tail[1..];
      var rest, plain := Commented(x, more), Plain(x, more);
      assert before + (first + plain) == (before + first) + plain;
      CommentedBalanced(before + first, x, more);
      if i.Import? {
        assert before + (first + "" + rest) == (before + first) + rest;
      } else {
        CommentBalanced(i.text);
        InsertBalanced(before + first, Spelled(i), rest);
        assert before + (first + Spelled(i) + rest) == (before + first) + Spelled(i) + rest;
      }
    }
  }

  // ---- what is compiled

  lemma {:induction false} NoCommentsLeft(first: string, tail: Tail)
    requires OnlyImports(tail)
    ensures Commented(first, tail) == Plain(first, tail)
    decreases |tail|
  {
    if tail != [] {
      NoCommentsLeft(tail[0].1, tail[1..]);
      assert first + "" == first;
    }
  }

  /** A type whose names have `import("...").` in front compiles like the type. */
  lemma ImportsCompile(p: Project, t: Ty, first: string, tail: Tail, depth: nat, stack: nat)
    requires Printable(t) && AllWellMade(tail) && OnlyImports(tail) && Plain(first, tail) == Print(t)
    ensures (var r := Compile(p, Woven(first, tail), depth, stack);
             && (r == Ok(Sem(p, t, stack)) <==> Fits(t, depth) && Ready(p, t, stack))
             && (r.Ok? <==> Fits(t, depth) && Ready(p, t, stack)))
  {
    hide *;
    Printed(t);
    WholeFacts(Print(t));
    NoCommentsLeft(first, tail);
    ImportsGo(first, tail);
    StripImportsSame(Print(t));
    SameCleaned(p, Woven(first, tail), Print(t));
    Reads(p, t, Woven(first, tail), depth, stack);
    YieldsMeans(Compile(p, Woven(first, tail), depth, stack), Fits(t, depth), Ready(p, t, stack), Sem(p, t, stack));
  }

  lemma WholeFacts(s: string)
    requires Whole(s)
    ensures !HasPair(s, 't', '(') && '*' !in s
  {
    CleanNoCall(s);
  }

  lemma YieldsMeans<T>(r: Result<T>, fits: bool, ready: bool, value: T)
    requires Yields(r, fits, ready, value)
    ensures r == Ok(value) <==> fits && ready
    ensures r.Ok? <==> fits && ready
  {
  }

  lemma SameCleaned(p: Project, a: string, b: string)
    requires StripImports(a) == StripImports(b)
    ensures Classify(p, a) == Classify(p, b)
  {
    hide StripImports, Trim, StripParens, ClassifyCleaned;
  }

  /** A text in braces whose brackets match is an inline object, and is split into fields when the
      comments are gone. */
  lemma BracedReads(p: Project, w: string, inner: string, plain: string)
    requires StripImports(w) == "{" + inner + "}" && Balanced(inner)
    requires StripComments("{" + inner + "}") == StripComments(plain)
    ensures Classify(p, w) == Inline(InlineFields(plain))
  {
    hide *;
    var c := "{" + inner + "}";
    BracedCleaned(w, inner);
    BracedAtom(inner);
    Braces(inner);
    BracedMember(c);
    SplitOfMember(c);
    LiteralEnds(c);
    NoArray(c);
    ObjectBranch(p, c);
    ClassifiedAs(p, w, c);
    SameFields(c, plain);
  }

  lemma BracedAtom(inner: string)
    requires Balanced(inner)
    ensures Atom(['{'] + inner + ['}'])
  {
    hide Balanced, Atom;
    Enclosed('{', inner, '}');
  }

  lemma Braces(inner: string)
    ensures ['{'] + inner + ['}'] == "{" + inner + "}"
    ensures (var c := "{" + inner + "}"; c[0] == '{' && c[|c| - 1] == '}')
  {
  }

  lemma BracedMember(c: string)
    requires c != "" && c[0] == '{' && c[|c| - 1] == '}' && Atom(c)
    ensures IsMember(c)
  {
    hide Atom;
  }

  lemma SameFields(a: string, b: string)
    requires StripComments(a) == StripComments(b)
    ensures InlineFields(a) == InlineFields(b)
  {
    hide StripComments, IndexFrom, LastIndex, FieldsOf;
  }

  lemma BracedCleaned(w: string, inner: string)
    requires StripImports(w) == "{" + inner + "}"
    ensures Cleaned(w) == "{" + inner + "}"
  {
    var c := "{" + inner + "}";
    hide StripImports, TrimStart, TrimEnd;
    assert c[0] == '{' && c[|c| - 1] == '}';
    TrimOfTrimmed(c);
  }

  /** The tail without the closing brace. */
  function Cut(tail: Tail, last: string): (r: Tail)
    requires tail != []
    ensures |r| == |tail|
  {
    tail[..|tail| - 1] + [(tail[|tail| - 1].0, last)]
  }

  lemma {:induction false} CutMeans(first: string, tail: Tail, last: string)
    requires tail != [] && tail[|tail| - 1].1 == last + "}" && AllWellMade(tail)
    ensures Plain(first, tail) == Plain(first, Cut(tail, last)) + "}"
    ensures Commented(first, tail) == Commented(first, Cut(tail, last)) + "}"
    ensures AllWellMade(Cut(tail, last))
    decreases |tail|
  {
    hide Spelled, WellMade;
    var i, x, more, cut := tail[0].0, tail[0].1, tail[1..], Cut(tail, last);
    var c := if i.Import? then "" else Spelled(i);
    if |tail| == 1 {
      assert cut == [(i, last)] && cut[1..] == [] && more == [];
      assert first + (last + "}") == first + last + "}" && first + c + (last + "}") == first + c + last + "}";
    } else {
      CutMeans(x, more, last);
      assert cut[0] == tail[0] && cut[1..] == Cut(more, last);
      var d, e := Plain(x, cut[1..]), Commented(x, cut[1..]);
      assert first + (d + "}") == first + d + "}" && first + c + (e + "}") == first + c + e + "}";
    }
  }

  lemma InnerOfObject(t: Ty, inner: string)
    requires Printable(t) && t.Obj? && Print(t) == "{" + inner + "}"
    ensures Balanced(inner)
  {
    hide Balanced, AllFieldsPrintable, Pieces, Join, Tidy;
    assert Print(t)[1..|Print(t)| - 1] == inner;
    if t.fields == [] {
      assert Print(t) == "{}" && inner == "";
      FlatIsAtom("");
    } else {
      var text := Join(Pieces(t.fields, false), ';');
      FieldsPrinted(t.fields, false);
      assert Print(t) == "{" + (" " + text + " ") + "}";
      assert inner == " " + text + " ";
      FlatIsAtom(" ");
      BalancedConcat(" ", text);
      BalancedConcat(" " + text, " ");
    }
  }

  /** An inline object with comments between its braces and imports anywhere compiles like the
      object. */
  lemma CommentsCompile(p: Project, t: Ty, first: string, tail: Tail, last: string, depth: nat, stack: nat)
    requires Printable(t) && t.Obj? && AllWellMade(tail) && tail != [] && tail[|tail| - 1].1 == last + "}"
    requires Plain("{" + first, tail) == Print(t) && !HasPair(Commented("{" + first, tail), 't', '(')
    ensures (var r := Compile(p, Woven("{" + first, tail), depth, stack);
             && (r == Ok(Sem(p, t, stack)) <==> Fits(t, depth) && Ready(p, t, stack))
             && (r.Ok? <==> Fits(t, depth) && Ready(p, t, stack)))
  {
    hide *;
    var text, cut := Woven("{" + first, tail), Cut(tail, last);
    Printed(t);
    WholeFacts(Print(t));
    ImportsGo("{" + first, tail);
    CommentsGo("{" + first, tail);
    NoComments(Print(t));
    WovenShift("{", first, tail);
    CutMeans(first, tail, last);
    var plain, commented := Plain(first, cut), Commented(first, cut);
    assert "{" + (plain + "}") == "{" + plain + "}" && "{" + (commented + "}") == "{" + commented + "}";
    InnerOfObject(t, plain);
    assert "" + plain == plain && "" + commented == commented;
    CommentedBalanced("", first, cut);
    BracedReads(p, text, commented, Print(t));
    ObjectMeans(p, t, depth, stack);
    ObjectClassified(p, t);
    FieldsRead(t.fields);
    PrintOfObject(t);
    Reads(p, t, text, depth, stack);
    YieldsMeans(Compile(p, text, depth, stack), Fits(t, depth), Ready(p, t, stack), Sem(p, t, stack));
  }

  lemma PrintOfObject(t: Ty)
    ensures t.Obj? ==> t == Obj(t.fields)
  {
  }
}
