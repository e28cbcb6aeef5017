/** From the names of the protocol to the names of Rust fields (`toSnakeCase`, `rustFieldName`). */
module RustNames {
  import opened JsText
  import opened TypeText

  predicate IsLower(c: char) {
    'a' <= c <= 'z'
  }

  /** `[a-z0-9]`. */
  predicate IsLowerOrDigit(c: char) {
    'a' <= c <= 'z' || '0' <= c <= '9'
  }

  /** `toLowerCase` and `toUpperCase` of one ASCII character. */
  function Lower(c: char): char {
    if 'A' <= c <= 'Z' then ((c as int) + 32) as char else c
  }

  function Upper(c: char): char {
    if 'a' <= c <= 'z' then ((c as int) - 32) as char else c
  }

  function LowerAll(s: string): string {
    if s == "" then "" else [Lower(s[0])] + LowerAll(s[1..])
  }

  /** `replace(/([a-z0-9])([A-Z])/g, '$1_$2')`. */
  function SplitWords(s: string): string
    decreases |s|
  {
    if s == "" then ""
    else if |s| >= 2 && IsLowerOrDigit(s[0]) && IsCapital(s[1]) then [s[0], '_', s[1]] + SplitWords(s[2..])
    else [s[0]] + SplitWords(s[1..])
  }

  /** `replace(/([A-Z])([A-Z][a-z])/g, '$1_$2')`. */
  function SplitAcronyms(s: string): string
    decreases |s|
  {
    if s == "" then ""
    else if |s| >= 3 && IsCapital(s[0]) && IsCapital(s[1]) && IsLower(s[2]) then
      [s[0], '_', s[1], s[2]] + SplitAcronyms(s[3..])
    else [s[0]] + SplitAcronyms(s[1..])
  }

  function ToSnakeCase(name: string): string {
    LowerAll(SplitAcronyms(SplitWords(name)))
  }

  const RESERVED: set<string> := {
    "as", "break", "const", "continue", "crate", "else", "enum", "extern",
    "false", "fn", "for", "if", "impl", "in", "let", "loop", "match", "mod",
    "move", "mut", "pub", "ref", "return", "self", "Self", "static", "struct",
    "super", "trait", "true", "type", "unsafe", "use", "where", "while",
    "async", "await", "dyn", "abstract", "become", "box", "do", "final",
    "macro", "override", "priv", "typeof", "unsized", "virtual", "yield", "try"}

  function RustIdent(name: string): string {
    if name in RESERVED then "r#" + name else name
  }

  /** `replace(/_([a-z0-9])/g, (_, c) => c.toUpperCase())`. */
  function ToCamel(s: string): string
    decreases |s|
  {
    if s == "" then ""
    else if |s| >= 2 && s[0] == '_' && IsLowerOrDigit(s[1]) then [Upper(s[1])] + ToCamel(s[2..])
    else [s[0]] + ToCamel(s[1..])
  }

  datatype FieldName = FieldName(rustName: string, wireName: string, renamed: bool)

  function RustFieldName(tsName: string): FieldName {
    var clean := if StartsWith(tsName, "_") then tsName[1..] else tsName;
    var rustName := RustIdent(ToSnakeCase(clean));
    var effective := if StartsWith(rustName, "r#") then rustName[2..] else rustName;
    FieldName(rustName, tsName, ToCamel(effective) != tsName)
  }

  // ---- one pass instead of two replacements

  /** A capital that starts a word: after a lower-case letter or digit, or after a capital and in
      front of a lower-case letter. */
  predicate StartsWord(prev: Option<char>, s: string) {
    && s != "" && IsCapital(s[0]) && prev.Some?
    && (IsLowerOrDigit(prev.value) || (IsCapital(prev.value) && |s| >= 2 && IsLower(s[1])))
  }

  function Snake(s: string, prev: Option<char>): string {
    if s == "" then ""
    else (if StartsWord(prev, s) then "_" else "") + [Lower(s[0])] + Snake(s[1..], Some(s[0]))
  }

  function MarkWords(s: string, prev: Option<char>): string {
    if s == "" then ""
    else (if IsCapital(s[0]) && prev.Some? && IsLowerOrDigit(prev.value) then "_" else "") + [s[0]] + MarkWords(s[1..], Some(s[0]))
  }

  function MarkAcronyms(s: string, prev: Option<char>): string {
    if s == "" then ""
    else
      (if |s| >= 2 && IsCapital(s[0]) && prev.Some? && IsCapital(prev.value) && IsLower(s[1]) then "_" else "")
      + [s[0]] + MarkAcronyms(s[1..], Some(s[0]))
  }

  lemma {:induction false} WordsMarked(s: string)
    ensures SplitWords(s) == MarkWords(s, None)
    decreases |s|
  {
    if s != "" {
      WordsMarked(s[1..]);
      if |s| >= 2 && IsLowerOrDigit(s[0]) && IsCapital(s[1]) {
        WordsMarked(s[2..]);
        assert s[1..][1..] == s[2..];
        WordReset(s[1], s[2..]);
        var rest := MarkWords(s[2..], None);
        assert MarkWords(s[1..], Some(s[0])) == "_" + [s[1]] + rest;
        assert "" + [s[0]] + ("_" + [s[1]] + rest) == [s[0], '_', s[1]] + rest;
      } else {
        WordReset(s[0], s[1..]);
      }
    }
  }

  lemma WordReset(c: char, rest: string)
    requires !(rest != "" && IsLowerOrDigit(c) && IsCapital(rest[0]))
    ensures MarkWords(rest, Some(c)) == MarkWords(rest, None)
  {
    hide IsLowerOrDigit, IsCapital;
  }

  lemma AcronymStep(c: char, rest: string, prev: Option<char>)
    ensures MarkAcronyms([c] + rest, prev)
         == (if rest != "" && IsCapital(c) && prev.Some? && IsCapital(prev.value) && IsLower(rest[0]) then "_" else "")
            + [c] + MarkAcronyms(rest, Some(c))
  {
    var s := [c] + rest;
    assert s[1..] == rest && s[0] == c && (rest != "" ==> s[1] == rest[0]);
    hide IsCapital, IsLower;
  }

  /** What comes before matters only in front of a capital and a lower-case letter. */
  lemma AcronymReset(c: char, rest: string)
    requires !(|rest| >= 2 && IsCapital(c) && IsCapital(rest[0]) && IsLower(rest[1]))
    ensures MarkAcronyms(rest, Some(c)) == MarkAcronyms(rest, None)
  {
    hide IsCapital, IsLower;
  }

  lemma {:induction false} AcronymsMarked(s: string)
    ensures SplitAcronyms(s) == MarkAcronyms(s, None)
    decreases |s|
  {
    hide MarkAcronyms, IsCapital, IsLower, IsLowerOrDigit;
    CharFacts();
    if s == "" {
      EmptyMarks(None);
    } else {
      AcronymStep(s[0], s[1..], None);
      assert [s[0]] + s[1..] == s;
      if |s| >= 3 && IsCapital(s[0]) && IsCapital(s[1]) && IsLower(s[2]) {
        AcronymsMarked(s[3..]);
        AcronymStep(s[1], s[2..], Some(s[0]));
        AcronymStep(s[2], s[3..], Some(s[1]));
        AcronymReset(s[2], s[3..]);
        assert [s[1]] + s[2..] == s[1..] && [s[2]] + s[3..] == s[2..];
        var rest := MarkAcronyms(s[3..], None);
        assert "" + [s[0]] + ("_" + [s[1]] + ("" + [s[2]] + rest)) == [s[0], '_', s[1], s[2]] + rest;
      } else {
        AcronymsMarked(s[1..]);
        AcronymReset(s[0], s[1..]);
        assert "" + [s[0]] + MarkAcronyms(s[1..], None) == [s[0]] + MarkAcronyms(s[1..], None);
      }
    }
  }

  lemma LowerStep(c: char, rest: string)
    ensures LowerAll([c] + rest) == [Lower(c)] + LowerAll(rest)
    ensures LowerAll("_" + [c] + rest) == "_" + [Lower(c)] + LowerAll(rest)
  {
    assert ([c] + rest)[1..] == rest && ("_" + [c] + rest)[1..] == [c] + rest;
    assert Lower('_') == '_';
    hide Lower;
  }

  lemma {:induction false} BothMarks(s: string, prev: Option<char>)
    ensures LowerAll(MarkAcronyms(MarkWords(s, prev), prev)) == Snake(s, prev)
    decreases |s|
  {
    hide LowerAll, MarkAcronyms, Lower;
    if s != "" {
      var c := s[0];
      var rest := MarkWords(s[1..], Some(c));
      BothMarks(s[1..], Some(c));
      NextMark(s);
      CharFacts();
      var tail := MarkAcronyms(rest, Some(c));
      LowerStep(c, tail);
      if IsCapital(c) && prev.Some? && IsLowerOrDigit(prev.value) {
        AcronymStep(c, rest, Some('_'));
        AcronymStep('_', [c] + rest, prev);
        assert "_" + [c] + rest == ['_'] + ([c] + rest);
        assert "" + ['_'] + ("" + [c] + tail) == "_" + [c] + tail;
      } else {
        AcronymStep(c, rest, prev);
        assert "" + [c] + rest == [c] + rest && "" + [c] + tail == [c] + tail;
        assert "" + [Lower(c)] + LowerAll(tail) == [Lower(c)] + LowerAll(tail);
      }
    } else {
      EmptyMarks(prev);
    }
  }

  lemma EmptyMarks(prev: Option<char>)
    ensures MarkAcronyms("", prev) == "" && LowerAll("") == ""
  {
  }

  lemma CharFacts()
    ensures !IsCapital('_') && !IsLower('_')
    ensures forall c :: IsCapital(c) ==> !IsLowerOrDigit(c) && !IsLower(c)
    ensures forall c :: IsLower(c) ==> IsLowerOrDigit(c)
  {
  }

  /** Behind a capital the next character is not moved away. */
  lemma NextMark(s: string)
    requires s != ""
    ensures (var rest := MarkWords(s[1..], Some(s[0]));
             && (|s| == 1 ==> rest == "")
             && (|s| >= 2 && !(IsLowerOrDigit(s[0]) && IsCapital(s[1])) ==> rest != "" && rest[0] == s[1])
             && (|s| >= 2 && IsLowerOrDigit(s[0]) && IsCapital(s[1]) ==> rest != "" && rest[0] == '_'))
  {
  }

  /** The two replacements and the lower-casing are one pass over the name. */
  lemma SnakeCaseIsSnake(name: string)
    ensures ToSnakeCase(name) == Snake(name, None)
  {
    WordsMarked(name);
    AcronymsMarked(SplitWords(name));
    BothMarks(name, None);
  }

  // ---- which names come back

  /** Every capital starts a word, and an underscore is followed by another one or the end. */
  predicate Kept(s: string, prev: Option<char>) {
    || s == ""
    || (&& (IsCapital(s[0]) ==> StartsWord(prev, s))
        && (s[0] == '_' ==> s[1..] == "" || s[1] == '_')
        && Kept(s[1..], Some(s[0])))
  }

  predicate Word(s: string) {
    forall i :: 0 <= i < |s| ==> IsWordChar(s[i])
  }

  lemma CaseRoundTrip(c: char)
    requires IsWordChar(c)
    ensures IsCapital(c) ==> IsLower(Lower(c)) && Upper(Lower(c)) == c && Lower(c) != c
    ensures !IsCapital(c) ==> Lower(c) == c
    ensures c != '_' ==> Lower(c) != '_' && Upper(Lower(c)) != '_' && IsLowerOrDigit(Lower(c))
  {
  }

  /** Two steps of the conversion back. */
  lemma CamelSteps(c: char, rest: string)
    ensures !(c == '_' && rest != "" && IsLowerOrDigit(rest[0])) ==> ToCamel([c] + rest) == [c] + ToCamel(rest)
    ensures c == '_' && rest != "" && IsLowerOrDigit(rest[0]) ==> ToCamel([c] + rest) == [Upper(rest[0])] + ToCamel(rest[1..])
  {
    var s := [c] + rest;
    assert s[1..] == rest;
    assert rest != "" ==> s[2..] == rest[1..] && s[1] == rest[0];
  }

  lemma ConsEqual(a: char, x: string, b: char, y: string)
    ensures [a] + x == [b] + y <==> a == b && x == y
  {
    assert ([a] + x)[1..] == x && ([b] + y)[1..] == y;
    assert ([a] + x)[0] == a && ([b] + y)[0] == b;
  }

  lemma KeptStep(s: string, prev: Option<char>)
    requires s != ""
    ensures s[0] != '_' ==> (Kept(s, prev) <==> (IsCapital(s[0]) ==> StartsWord(prev, s)) && Kept(s[1..], Some(s[0])))
    ensures s[0] == '_' ==> (Kept(s, prev) <==> (|s| == 1 || s[1] == '_') && Kept(s[1..], Some('_')))
  {
    CharFacts();
    assert s[1..] == "" <==> |s| == 1;
    hide IsCapital, StartsWord;
  }

  /** A letter or digit comes back as itself or in lower case. */
  lemma CamelOfLetter(s: string, prev: Option<char>)
    requires Word(s) && s != "" && s[0] != '_'
    ensures ToCamel(Snake(s, prev))
         == [if StartsWord(prev, s) then s[0] else Lower(s[0])] + ToCamel(Snake(s[1..], Some(s[0])))
  {
    hide ToCamel, Lower, Upper, IsCapital, IsLowerOrDigit, IsLower, StartsWord, IsWordChar;
    var c := s[0];
    var rest := Snake(s[1..], Some(c));
    CaseRoundTrip(c);
    WordStart(prev, s);
    CamelSteps(Lower(c), rest);
    if StartsWord(prev, s) {
      CamelSteps('_', [Lower(c)] + rest);
      assert "_" + [Lower(c)] + rest == ['_'] + ([Lower(c)] + rest);
      assert ([Lower(c)] + rest)[1..] == rest;
    } else {
      assert "" + [Lower(c)] + rest == [Lower(c)] + rest;
    }
  }

  lemma CamelOfUnderscore(s: string, prev: Option<char>)
    requires Word(s) && s != "" && s[0] == '_'
    ensures |s| == 1 || s[1] == '_' ==> ToCamel(Snake(s, prev)) == "_" + ToCamel(Snake(s[1..], Some('_')))
    ensures |s| >= 2 && s[1] != '_' ==>
              (var c := Upper(Lower(s[1])); c != '_' && ToCamel(Snake(s, prev)) == [c] + ToCamel(Snake(s[2..], Some(s[1]))))
  {
    hide ToCamel, Lower, Upper, IsCapital, IsLowerOrDigit, IsLower, IsWordChar;
    var rest := Snake(s[1..], Some('_'));
    CharFacts();
    CaseRoundTrip('_');
    WordStart(prev, s);
    CamelSteps('_', rest);
    assert "" + ['_'] + rest == ['_'] + rest;
    assert Lower('_') == '_';
    if |s| >= 2 {
      AfterUnderscore(s);
    }
  }

  lemma {:induction false} CamelOfSnake(s: string, prev: Option<char>)
    requires Word(s)
    ensures ToCamel(Snake(s, prev)) == s <==> Kept(s, prev)
    ensures |ToCamel(Snake(s, prev))| <= |s|
    decreases |s|
  {
    hide ToCamel, Lower, Upper, IsCapital, IsLowerOrDigit, IsLower, StartsWord, IsWordChar, Snake, Kept;
    if s == "" {
      NoCamel();
    } else {
      var c := s[0];
      CamelOfSnake(s[1..], Some(c));
      CaseRoundTrip(c);
      KeptStep(s, prev);
      WordStart(prev, s);
      var back := ToCamel(Snake(s[1..], Some(c)));
      assert s == [c] + s[1..];
      if c != '_' {
        CamelOfLetter(s, prev);
        ConsEqual(if StartsWord(prev, s) then c else Lower(c), back, c, s[1..]);
      } else {
        CamelOfUnderscore(s, prev);
        if |s| == 1 || s[1] == '_' {
          ConsEqual('_', back, '_', s[1..]);
        } else {
          CamelOfSnake(s[2..], Some(s[1]));
          ConsEqual(Upper(Lower(s[1])), ToCamel(Snake(s[2..], Some(s[1]))), '_', s[1..]);
        }
      }
    }
  }

  lemma NoCamel()
    ensures forall prev :: ToCamel(Snake("", prev)) == "" && Kept("", prev)
  {
  }

  lemma WordStart(prev: Option<char>, s: string)
    ensures StartsWord(prev, s) ==> s != "" && IsCapital(s[0])
  {
  }

  /** Behind an underscore nothing is inserted, and a letter or digit swallows it. */
  lemma AfterUnderscore(s: string)
    requires Word(s) && |s| >= 2 && s[0] == '_'
    ensures (var rest := Snake(s[1..], Some('_'));
             && rest != "" && rest[0] == Lower(s[1]) && rest[1..] == Snake(s[2..], Some(s[1]))
             && (IsLowerOrDigit(rest[0]) <==> s[1] != '_') && (s[1] != '_' ==> Upper(rest[0]) != '_'))
  {
    CaseRoundTrip(s[1]);
    var more := Snake(s[2..], Some(s[1]));
    assert s[1..][1..] == s[2..];
    assert "" + [Lower(s[1])] + more == [Lower(s[1])] + more;
    assert Snake(s[1..], Some('_')) == [Lower(s[1])] + more;
    assert ([Lower(s[1])] + more)[1..] == more;
  }

  lemma HashSecond(s: string)
    ensures StartsWith(s, "r#") ==> |s| >= 2 && s[1] == '#'
  {
    assert StartsWith(s, "r#") ==> s[1] == "r#"[1];
  }

  lemma Unescaped(name: string)
    requires Word(name)
    ensures (var rustName := RustIdent(ToSnakeCase(name));
             (if StartsWith(rustName, "r#") then rustName[2..] else rustName) == ToSnakeCase(name))
  {
    SnakeCaseIsSnake(name);
    SnakeIsWord(name, None);
    hide ToSnakeCase, RESERVED, Snake;
    HashSecond(ToSnakeCase(name));
    assert ("r#" + ToSnakeCase(name))[2..] == ToSnakeCase(name);
  }

  lemma {:induction false} SnakeIsWord(s: string, prev: Option<char>)
    requires Word(s)
    ensures Word(Snake(s, prev))
  {
    if s != "" {
      CaseRoundTrip(s[0]);
      SnakeIsWord(s[1..], Some(s[0]));
    }
  }

  /** A field keeps its name exactly when it has no leading underscore, every capital starts a
      word and no underscore stands in front of a letter or digit, also if it is a keyword. */
  lemma RenamedExactly(tsName: string)
    requires Word(tsName)
    ensures !RustFieldName(tsName).renamed <==> !StartsWith(tsName, "_") && Kept(tsName, None)
    ensures RustFieldName(tsName).wireName == tsName
  {
    hide ToSnakeCase, RustIdent, ToCamel, Snake, Kept;
    var clean := if StartsWith(tsName, "_") then tsName[1..] else tsName;
    Unescaped(clean);
    SnakeCaseIsSnake(clean);
    CamelOfSnake(clean, None);
  }

  /** Letters and digits only. */
  predicate Alphanumeric(s: string) {
    forall i :: 0 <= i < |s| ==> IsWordChar(s[i]) && s[i] != '_'
  }

  predicate CapitalStarts(s: string, i: nat)
    requires i < |s|
  {
    IsCapital(s[i]) ==> i > 0 && (IsLowerOrDigit(s[i - 1]) || (i + 1 < |s| && IsLower(s[i + 1])))
  }

  predicate CapitalsStartWords(s: string) {
    forall i :: 0 <= i < |s| ==> CapitalStarts(s, i)
  }

  lemma {:induction false} KeptFrom(s: string, i: nat)
    requires Alphanumeric(s) && i <= |s| && (forall k :: 0 <= k < i ==> CapitalStarts(s, k))
    ensures Kept(s[i..], if i == 0 then None else Some(s[i - 1])) <==> forall k :: i <= k < |s| ==> CapitalStarts(s, k)
    decreases |s| - i
  {
    hide IsWordChar, IsLower, IsLowerOrDigit;
    if i < |s| {
      var prev: Option<char> := if i == 0 then None else Some(s[i - 1]);
      assert s[i..][1..] == s[i + 1..] && s[i..][0] == s[i];
      assert i + 1 < |s| ==> s[i..][1] == s[i + 1];
      FirstStarts(s, i, prev);
      if CapitalStarts(s, i) {
        KeptFrom(s, i + 1);
      }
    }
  }

  /** Of two capitals in a row the second one starts a word only in front of a lower-case letter,
      and any capital in front of a lower-case letter starts one. */
  lemma FirstStarts(s: string, i: nat, prev: Option<char>)
    requires Alphanumeric(s) && i < |s| && prev == (if i == 0 then None else Some(s[i - 1]))
    ensures (IsCapital(s[i]) ==> StartsWord(prev, s[i..])) <==> CapitalStarts(s, i)
  {
    assert s[i..][0] == s[i] && (i + 1 < |s| ==> s[i..][1] == s[i + 1]);
  }

  /** For names of letters and digits: in words, and in particular for all lower-camel names
      without adjacent capitals. */
  lemma AlphanumericExactly(tsName: string)
    requires Alphanumeric(tsName)
    ensures !RustFieldName(tsName).renamed <==> CapitalsStartWords(tsName)
  {
    RenamedExactly(tsName);
    KeptFrom(tsName, 0);
    assert tsName[0..] == tsName;
    hide RustFieldName, Kept;
  }

  lemma LowerCamel(tsName: string)
    requires Alphanumeric(tsName) && (tsName != "" ==> !IsCapital(tsName[0]))
    requires forall i :: 0 < i < |tsName| && IsCapital(tsName[i]) ==> !IsCapital(tsName[i - 1])
    ensures !RustFieldName(tsName).renamed
  {
    hide RustFieldName;
    AlphanumericExactly(tsName);
  }

  /** Fields that keep their names never collide. */
  lemma NoCollision(a: string, b: string)
    requires Word(a) && Word(b) && !RustFieldName(a).renamed && !RustFieldName(b).renamed
    requires RustFieldName(a).rustName == RustFieldName(b).rustName
    ensures a == b
  {
    hide RustIdent, ToCamel, ToSnakeCase;
  }

  /** A renamed field can collide with one that is not. */
  lemma RenamedCollide()
    ensures RustFieldName("userID").rustName == RustFieldName("userId").rustName
  {
    hide *;
    SnakeOfUser("D");
    SnakeOfUser("d");
    assert "userI" + "D" == "userID" && "userI" + "d" == "userId";
    SnakeCaseIsSnake("userID");
    SnakeCaseIsSnake("userId");
    UserName("userID");
    UserName("userId");
  }

  lemma UserName(name: string)
    requires name != "" && name[0] == 'u' && ToSnakeCase(name) == "user_id"
    ensures RustFieldName(name).rustName == RustIdent("user_id")
  {
    hide ToSnakeCase, RESERVED, ToCamel, RustIdent;
  }

  lemma SnakeStep(s: string, prev: Option<char>, rest: string)
    requires s != "" && Snake(s[1..], Some(s[0])) == rest
    ensures Snake(s, prev) == (if StartsWord(prev, s) then "_" else "") + [Lower(s[0])] + rest
  {
  }

  lemma Tail(rest: string, first: string, last: string)
    requires |first| == 1
    ensures (first + rest + last)[1..] == rest + last
  {
  }

  lemma SnakeOfUser(last: string)
    requires last == "D" || last == "d"
    ensures Snake("userI" + last, None) == "user_id"
  {
    hide Snake;
    SnakeLast(last);
    assert "I" + "" == "I" && "r" + "I" == "rI" && "e" + "rI" == "erI" && "s" + "erI" == "serI" && "u" + "serI" == "userI";
    assert "" + last == last;
    Tail("", "I", last);
    Tail("I", "r", last);
    Tail("rI", "e", last);
    Tail("erI", "s", last);
    Tail("serI", "u", last);
    SnakeStep("I" + last, Some('r'), "d");
    SnakeStep("rI" + last, Some('e'), "_id");
    SnakeStep("erI" + last, Some('s'), "r_id");
    SnakeStep("serI" + last, Some('u'), "er_id");
    SnakeStep("userI" + last, None, "ser_id");
  }

  lemma SnakeLast(last: string)
    requires last == "D" || last == "d"
    ensures Snake(last, Some('I')) == "d"
  {
  }

  // ---- keywords

  /** The keywords of Rust, and the words that it keeps for later. */
  const KEYWORDS: set<string> := {
    "as", "async", "await", "break", "const", "continue", "crate", "dyn", "else", "enum",
    "extern", "false", "fn", "for", "if", "impl", "in", "let", "loop", "match",
    "mod", "move", "mut", "pub", "ref", "return", "self", "Self", "static", "struct",
    "super", "trait", "true", "type", "unsafe", "use", "where", "while"}

  const KEPT_WORDS: set<string> := {
    "abstract", "become", "box", "do", "final", "macro", "override", "priv", "try", "typeof", "unsized", "virtual", "yield"}

  predicate RustKeyword(s: string) {
    s in KEYWORDS || s in KEPT_WORDS
  }

  lemma ReservedExactly(s: string)
    ensures s in RESERVED <==> RustKeyword(s)
  {
    if RustKeyword(s) {
      KeywordsReserved(s);
    }
    if s in RESERVED {
      ReservedKeyword(s);
    }
  }

  lemma KeywordsReserved(s: string)
    requires s in KEYWORDS || s in KEPT_WORDS
    ensures s in RESERVED
  {
  }

  lemma ReservedKeyword(s: string)
    requires s in RESERVED
    ensures s in KEYWORDS || s in KEPT_WORDS
  {
    var r0 := {"as", "break", "const", "continue", "crate", "else", "enum", "extern"};
    var r1 := {"false", "fn", "for", "if", "impl", "in", "let", "loop", "match", "mod"};
    var r2 := {"move", "mut", "pub", "ref", "return", "self", "Self", "static", "struct"};
    var r3 := {"super", "trait", "true", "type", "unsafe", "use", "where", "while"};
    var r4 := {"async", "await", "dyn", "abstract", "become", "box", "do", "final"};
    var r5 := {"macro", "override", "priv", "typeof", "unsized", "virtual", "yield", "try"};
    assert s in r0 || s in r1 || s in r2 || s in r3 || s in r4 || s in r5;
  }

  lemma KeywordsPlain(s: string)
    ensures s in KEYWORDS ==> |s| > 1 && s[1] != '#'
  {
  }

  lemma KeptWordsPlain(s: string)
    ensures s in KEPT_WORDS ==> |s| > 1 && s[1] != '#'
  {
  }

  lemma NoKeywordEscaped(s: string)
    ensures !RustKeyword("r#" + s)
  {
    KeywordsPlain("r#" + s);
    KeptWordsPlain("r#" + s);
    hide KEYWORDS, KEPT_WORDS;
    assert ("r#" + s)[1] == '#';
  }

  /** The Rust name is the snake-case name, with `r#` in front exactly when that is a keyword; so it
      never is one.  The wire name is the name in the protocol. */
  lemma EscapedExactly(tsName: string)
    ensures (var field := RustFieldName(tsName);
             var snake := ToSnakeCase(if StartsWith(tsName, "_") then tsName[1..] else tsName);
             && field.wireName == tsName
             && field.rustName == (if RustKeyword(snake) then "r#" + snake else snake)
             && !RustKeyword(field.rustName))
  {
    hide ToSnakeCase, ToCamel, RESERVED, RustKeyword;
    var snake := ToSnakeCase(if StartsWith(tsName, "_") then tsName[1..] else tsName);
    ReservedExactly(snake);
    NoKeywordEscaped(snake);
  }
}
