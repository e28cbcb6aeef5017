/** `discriminatedUnionAllowsUnknown`: whether a union keeps unknown discriminants follows from
    the enum that its variants take their discriminant from. */
module UnionOpenness {
  import opened JsText
  import opened TypeText
  import opened BracketText
  import opened Flattening

  /** `propertyInHierarchy`: an interface's own declaration, else that of the first base that has one. */
  function PropertyInHierarchy(g: Graph<string>, ghost rank: map<string, nat>, name: string, property: string): Option<string>
    requires Acyclic(g, rank)
    decreases if name in g then rank[name] + 1 else 0, 1, 0
  {
    if name !in g then None
    else if Named(g[name].own, property) then Some(First(g[name].own, property).body)
    else InBases(g, rank, name, 0, property)
  }

  function InBases(g: Graph<string>, ghost rank: map<string, nat>, name: string, i: nat, property: string): Option<string>
    requires Acyclic(g, rank) && name in g && i <= |g[name].bases|
    decreases rank[name] + 1, 0, |g[name].bases| - i
  {
    if i == |g[name].bases| then None
    else
      var inherited := PropertyInHierarchy(g, rank, g[name].bases[i], property);
      if inherited.Some? then inherited else InBases(g, rank, name, i + 1, property)
  }

  lemma {:induction false} NamedConcat<T>(a: seq<Decl<T>>, b: seq<Decl<T>>, name: string)
    ensures Named(a + b, name) <==> Named(a, name) || Named(b, name)
  {
    if a == [] {
      assert a + b == b;
    } else {
      assert (a + b)[1..] == a[1..] + b;
      NamedConcat(a[1..], b, name);
    }
  }

  /** A property is found exactly when it is in the flattened list. */
  lemma {:induction false} FoundExactly(g: Graph<string>, rank: map<string, nat>, name: string, property: string)
    requires Acyclic(g, rank)
    ensures PropertyInHierarchy(g, rank, name, property).Some? <==> name in g && Named(All(g, rank, name), property)
    decreases if name in g then rank[name] + 1 else 0, 1, 0
  {
    hide Named, First;
    if name in g {
      var n := |g[name].bases|;
      NamedConcat(AllBases(g, rank, name, n), g[name].own, property);
      FoundInBases(g, rank, name, 0, property);
      NoneNamed(property);
    }
  }

  lemma NoneNamed(property: string)
    ensures !Named<string>([], property)
  {
  }

  lemma {:induction false} FoundInBases(g: Graph<string>, rank: map<string, nat>, name: string, i: nat, property: string)
    requires Acyclic(g, rank) && name in g && i <= |g[name].bases|
    ensures InBases(g, rank, name, i, property).Some? || Named(AllBases(g, rank, name, i), property)
       <==> Named(AllBases(g, rank, name, |g[name].bases|), property)
    ensures InBases(g, rank, name, i, property).Some? ==> Named(AllBases(g, rank, name, |g[name].bases|), property)
    decreases rank[name] + 1, 0, |g[name].bases| - i
  {
    hide Named, First, PropertyInHierarchy, All;
    if i < |g[name].bases| {
      var base := g[name].bases[i];
      FoundExactly(g, rank, base, property);
      FoundInBases(g, rank, name, i + 1, property);
      NamedConcat(AllBases(g, rank, name, i), if base in g then All(g, rank, base) else [], property);
      NoneNamed(property);
    }
  }

  /** `(\w+)\.(\w+)` at the start of the text, and what follows it. */
  function RefAt(text: string): (r: Option<((string, string), string)>)
    ensures r.Some? ==> |r.value.1| < |text|
  {
    var n := WordRun(text);
    if n > 0 && n + 1 < |text| && text[n] == '.' && WordRun(text[n + 1..]) > 0 then
      var m := WordRun(text[n + 1..]);
      Some(((text[..n], text[n + 1..n + 1 + m]), text[n + 1 + m..]))
    else None
  }

  /** `matchAll(/\b(\w+)\.(\w+)/g)`, the enum members that a type text names, in order; `inside`
      says that a word character comes before. */
  function EnumRefs(text: string, inside: bool): seq<(string, string)>
    decreases |text|
  {
    if text == "" then []
    else if WordRun(text) == 0 then EnumRefs(text[1..], false)
    else if !inside && RefAt(text).Some? then [RefAt(text).value.0] + EnumRefs(RefAt(text).value.1, true)
    else EnumRefs(text[WordRun(text)..], true)
  }

  predicate AllWords(refs: seq<(string, string)>) {
    forall i :: 0 <= i < |refs| ==> IsWord(refs[i].0) && IsWord(refs[i].1)
  }

  function MemberTexts(refs: seq<(string, string)>): (r: seq<string>)
    ensures |r| == |refs|
  {
    if refs == [] then [] else [refs[0].0 + "." + refs[0].1] + MemberTexts(refs[1..])
  }

  lemma {:induction false} RunOfWord(word: string, rest: string)
    requires (forall i :: 0 <= i < |word| ==> IsWordChar(word[i])) && (rest == "" || !IsWordChar(rest[0]))
    ensures WordRun(word + rest) == |word|
  {
    if word == "" {
      assert word + rest == rest;
    } else {
      assert (word + rest)[1..] == word[1..] + rest;
      RunOfWord(word[1..], rest);
    }
  }

  lemma MemberFound(enum: string, key: string, rest: string)
    requires IsWord(enum) && IsWord(key) && (rest == "" || !IsWordChar(rest[0]))
    ensures EnumRefs(enum + "." + key + rest, false) == [(enum, key)] + EnumRefs(rest, true)
  {
    MemberAt(enum, key, rest);
    hide RefAt, WordRun;
  }

  lemma MemberAt(enum: string, key: string, rest: string)
    requires IsWord(enum) && IsWord(key) && (rest == "" || !IsWordChar(rest[0]))
    ensures (var text := enum + "." + key + rest; text != "" && WordRun(text) > 0 && RefAt(text) == Some(((enum, key), rest)))
  {
    hide *;
    var text, n, m := enum + "." + key + rest, |enum|, |key|;
    MemberParts(enum, key, rest);
    WordsNotEmpty(enum, key);
    assert text == enum + ("." + key + rest);
    RunOfWord(enum, "." + key + rest);
    RunOfWord(key, rest);
    RefIs(text, n, m);
  }

  lemma MemberParts(enum: string, key: string, rest: string)
    ensures (var text, n, m := enum + "." + key + rest, |enum|, |key|;
             && text[n] == '.' && text[n + 1..] == key + rest && text[..n] == enum
             && text[n + 1..n + 1 + m] == key && text[n + 1 + m..] == rest)
  {
  }

  lemma WordsNotEmpty(enum: string, key: string)
    requires IsWord(enum) && IsWord(key)
    ensures enum != "" && key != "" && !IsWordChar('.')
    ensures (forall i :: 0 <= i < |enum| ==> IsWordChar(enum[i])) && (forall i :: 0 <= i < |key| ==> IsWordChar(key[i]))
  {
  }

  lemma RefIs(text: string, n: nat, m: nat)
    requires n > 0 && WordRun(text) == n && n + 1 < |text| && text[n] == '.' && m > 0 && WordRun(text[n + 1..]) == m
    ensures n + 1 + m <= |text|
    ensures RefAt(text) == Some(((text[..n], text[n + 1..n + 1 + m]), text[n + 1 + m..]))
  {
    hide WordRun;
  }

  lemma BarSkipped(rest: string)
    ensures EnumRefs(" | " + rest, true) == EnumRefs(rest, false)
  {
    assert (" | " + rest)[1..] == "| " + rest && ("| " + rest)[1..] == " " + rest && (" " + rest)[1..] == rest;
    SkipChar(" | " + rest, true);
    SkipChar("| " + rest, false);
    SkipChar(" " + rest, false);
  }

  lemma SkipChar(text: string, inside: bool)
    requires text != "" && !IsWordChar(text[0])
    ensures EnumRefs(text, inside) == EnumRefs(text[1..], false)
  {
    hide RefAt;
  }

  /** In a union of enum members exactly these are found. */
  lemma {:induction false} EnumRefsOfMembers(refs: seq<(string, string)>)
    requires AllWords(refs)
    ensures EnumRefs(Bars(MemberTexts(refs)), false) == refs
  {
    hide EnumRefs, IsWord, IsWordChar, Bars;
    var parts := MemberTexts(refs);
    BarsUnfold(parts);
    if refs == [] {
      NoRefsFound();
    } else {
      var enum, key := refs[0].0, refs[0].1;
      EnumRefsOfMembers(refs[1..]);
      assert parts[1..] == MemberTexts(refs[1..]);
      var rest := Bars(parts[1..]);
      NoRefsFound();
      BarNoWord();
      if |refs| == 1 {
        MemberFound(enum, key, "");
        assert enum + "." + key + "" == parts[0];
        assert [(enum, key)] + [] == refs;
      } else {
        MemberFound(enum, key, " | " + rest);
        ConcatAssoc(parts[0], " | ", rest);
        BarSkipped(rest);
        assert [(enum, key)] + refs[1..] == refs;
      }
    }
  }

  lemma NoRefsFound()
    ensures EnumRefs("", true) == [] && EnumRefs("", false) == [] && Bars([]) == ""
  {
  }

  lemma BarNoWord()
    ensures !IsWordChar(' ')
  {
  }

  /** An enum of the protocol: whether it is open (`@nonexhaustive`), and the values of its members. */
  datatype EnumDecl = EnumDecl(open: bool, members: map<string, string>)

  type Enums = map<string, EnumDecl>

  datatype Answer = Open(open: bool) | NoEnum(name: string) | NoProperty(name: string) | SeveralEnums(names: seq<string>)

  function EnumAnswer(enums: Enums, name: string): Answer {
    if name in enums then Open(enums[name].open) else NoEnum(name)
  }

  /** Adding the names to a set that remembers the order. */
  function AddNames(names: seq<string>, refs: seq<(string, string)>): seq<string>
    decreases |refs|
  {
    if refs == [] then names
    else AddNames(if refs[0].0 in names then names else names + [refs[0].0], refs[1..])
  }

  function Conclude(enums: Enums, fallback: bool, names: seq<string>): Answer {
    if names == [] then Open(fallback)
    else if |names| != 1 then SeveralEnums(names)
    else EnumAnswer(enums, names[0])
  }

  /** The answer for the rest of the structs, with the enum names found so far. */
  function AnswerFrom(g: Graph<string>, ghost rank: map<string, nat>, enums: Enums, field: string, structs: seq<string>,
                      fallback: bool, names: seq<string>): Answer
    requires Acyclic(g, rank)
    decreases |structs|
  {
    if structs == [] then Conclude(enums, fallback, names)
    else
      match PropertyInHierarchy(g, rank, structs[0], field)
      case None => NoProperty(structs[0])
      case Some(text) => AnswerFrom(g, rank, enums, field, structs[1..], fallback, AddNames(names, EnumRefs(text, false)))
  }

  function AllowsUnknown(g: Graph<string>, ghost rank: map<string, nat>, enums: Enums, field: string, structs: seq<string>,
                         fallback: bool, enumName: Option<string>): Answer
    requires Acyclic(g, rank)
  {
    if enumName.Some? then EnumAnswer(enums, enumName.value)
    else AnswerFrom(g, rank, enums, field, structs, fallback, [])
  }

  method DiscriminatedUnionAllowsUnknown(g: Graph<string>, ghost rank: map<string, nat>, enums: Enums, field: string,
                                         structs: seq<string>, fallback: bool, enumName: Option<string>)
    returns (answer: Answer)
    requires Acyclic(g, rank)
    ensures answer == AllowsUnknown(g, rank, enums, field, structs, fallback, enumName)
  {
    hide PropertyInHierarchy, EnumRefs, AddNames;
    if enumName.Some? {
      return EnumAnswer(enums, enumName.value);
    }
    var enumNames: seq<string> := [];
    for i := 0 to |structs|
      invariant AnswerFrom(g, rank, enums, field, structs[i..], fallback, enumNames)
             == AnswerFrom(g, rank, enums, field, structs, fallback, [])
    {
      assert structs[i..][0] == structs[i] && structs[i..][1..] == structs[i + 1..];
      var property := PropertyInHierarchy(g, rank, structs[i], field);
      if property.None? {
        return NoProperty(structs[i]);
      }
      var refs := EnumRefs(property.value, false);
      ghost var before := enumNames;
      for j := 0 to |refs|
        invariant AddNames(enumNames, refs[j..]) == AddNames(before, refs)
      {
        AddStep(enumNames, refs, j);
        if refs[j].0 !in enumNames {
          enumNames := enumNames + [refs[j].0];
        }
      }
      AddNone(enumNames, refs);
    }
    if |enumNames| == 0 {
      return Open(fallback);
    }
    if |enumNames| != 1 {
      return SeveralEnums(enumNames);
    }
    return EnumAnswer(enums, enumNames[0]);
  }

  lemma AddStep(names: seq<string>, refs: seq<(string, string)>, j: nat)
    requires j < |refs|
    ensures AddNames(names, refs[j..])
         == AddNames(if refs[j].0 in names then names else names + [refs[j].0], refs[j + 1..])
  {
    assert refs[j..][0] == refs[j] && refs[j..][1..] == refs[j + 1..];
  }

  lemma AddNone(names: seq<string>, refs: seq<(string, string)>)
    ensures AddNames(names, refs[|refs|..]) == names
  {
  }

  // ---- what the answer means

  /** The discriminant found for a struct names the enum. */
  predicate NamesEnum(g: Graph<string>, ghost rank: map<string, nat>, field: string, struct: string, name: string)
    requires Acyclic(g, rank)
  {
    var property := PropertyInHierarchy(g, rank, struct, field);
    property.Some? && Refers(EnumRefs(property.value, false), name)
  }

  predicate Refers(refs: seq<(string, string)>, name: string) {
    exists i :: 0 <= i < |refs| && refs[i].0 == name
  }

  predicate SomeNames(g: Graph<string>, ghost rank: map<string, nat>, field: string, structs: seq<string>, name: string)
    requires Acyclic(g, rank)
  {
    exists i :: 0 <= i < |structs| && NamesEnum(g, rank, field, structs[i], name)
  }

  /** Every struct has the discriminant among its own and inherited properties. */
  ghost predicate AllDeclare(g: Graph<string>, rank: map<string, nat>, field: string, structs: seq<string>)
    requires Acyclic(g, rank)
  {
    forall i :: 0 <= i < |structs| ==> structs[i] in g && Named(All(g, rank, structs[i]), field)
  }

  /** The discriminants of the structs name this enum and no other. */
  ghost predicate OneEnum(g: Graph<string>, rank: map<string, nat>, field: string, structs: seq<string>, name: string)
    requires Acyclic(g, rank)
  {
    forall other :: SomeNames(g, rank, field, structs, other) <==> other == name
  }

  ghost predicate NoEnumNamed(g: Graph<string>, rank: map<string, nat>, field: string, structs: seq<string>)
    requires Acyclic(g, rank)
  {
    forall name :: !SomeNames(g, rank, field, structs, name)
  }

  /** All enum names, in the order found, once every struct has a discriminant. */
  function EnumsFound(g: Graph<string>, ghost rank: map<string, nat>, field: string, structs: seq<string>, names: seq<string>): seq<string>
    requires Acyclic(g, rank)
    decreases |structs|
  {
    if structs == [] then names
    else
      var property := PropertyInHierarchy(g, rank, structs[0], field);
      EnumsFound(g, rank, field, structs[1..],
                 if property.Some? then AddNames(names, EnumRefs(property.value, false)) else names)
  }

  lemma {:induction false} AddNamesMeans(names: seq<string>, refs: seq<(string, string)>, name: string)
    ensures name in AddNames(names, refs) <==> name in names || Refers(refs, name)
    ensures NoRepeats(names) ==> NoRepeats(AddNames(names, refs))
    decreases |refs|
  {
    if refs != [] {
      var next := if refs[0].0 in names then names else names + [refs[0].0];
      AddNamesMeans(next, refs[1..], name);
      RefersCons(refs, name);
      if NoRepeats(names) && refs[0].0 !in names {
        NoRepeatsSnoc(names, refs[0].0);
      }
    }
  }

  lemma RefersCons(refs: seq<(string, string)>, name: string)
    requires refs != []
    ensures Refers(refs, name) <==> refs[0].0 == name || Refers(refs[1..], name)
  {
    if Refers(refs[1..], name) {
      var i :| 0 <= i < |refs[1..]| && refs[1..][i].0 == name;
      assert refs[i + 1].0 == name;
    }
    if Refers(refs, name) {
      var i :| 0 <= i < |refs| && refs[i].0 == name;
      assert i > 0 ==> refs[1..][i - 1].0 == name;
    }
  }

  lemma SomeNamesCons(g: Graph<string>, rank: map<string, nat>, field: string, structs: seq<string>, name: string)
    requires Acyclic(g, rank) && structs != []
    ensures SomeNames(g, rank, field, structs, name)
       <==> NamesEnum(g, rank, field, structs[0], name) || SomeNames(g, rank, field, structs[1..], name)
  {
    hide NamesEnum;
    if SomeNames(g, rank, field, structs[1..], name) {
      var i :| 0 <= i < |structs[1..]| && NamesEnum(g, rank, field, structs[1..][i], name);
      assert structs[i + 1] == structs[1..][i];
    }
    if SomeNames(g, rank, field, structs, name) {
      var i :| 0 <= i < |structs| && NamesEnum(g, rank, field, structs[i], name);
      assert i > 0 ==> structs[1..][i - 1] == structs[i];
    }
  }

  lemma {:induction false} EnumsFoundMeans(g: Graph<string>, rank: map<string, nat>, field: string, structs: seq<string>,
                                           names: seq<string>, name: string)
    requires Acyclic(g, rank)
    ensures name in EnumsFound(g, rank, field, structs, names) <==> name in names || SomeNames(g, rank, field, structs, name)
    ensures NoRepeats(names) ==> NoRepeats(EnumsFound(g, rank, field, structs, names))
    decreases |structs|
  {
    hide PropertyInHierarchy, EnumRefs, AddNames, Refers, NoRepeats;
    if structs != [] {
      var property := PropertyInHierarchy(g, rank, structs[0], field);
      var next := if property.Some? then AddNames(names, EnumRefs(property.value, false)) else names;
      EnumsFoundMeans(g, rank, field, structs[1..], next, name);
      SomeNamesCons(g, rank, field, structs, name);
      if property.Some? {
        AddNamesMeans(names, EnumRefs(property.value, false), name);
      }
    }
  }

  lemma {:induction false} AnswerIsConclusion(g: Graph<string>, rank: map<string, nat>, enums: Enums, field: string,
                                              structs: seq<string>, fallback: bool, names: seq<string>)
    requires Acyclic(g, rank)
    ensures AllDeclare(g, rank, field, structs) ==>
              AnswerFrom(g, rank, enums, field, structs, fallback, names)
              == Conclude(enums, fallback, EnumsFound(g, rank, field, structs, names))
    ensures !AllDeclare(g, rank, field, structs) ==>
              AnswerFrom(g, rank, enums, field, structs, fallback, names).NoProperty?
    decreases |structs|
  {
    hide PropertyInHierarchy, EnumRefs, AddNames, Named, All, Conclude;
    if structs != [] {
      FoundExactly(g, rank, structs[0], field);
      DeclareCons(g, rank, field, structs);
      var property := PropertyInHierarchy(g, rank, structs[0], field);
      if property.Some? {
        AnswerIsConclusion(g, rank, enums, field, structs[1..], fallback, AddNames(names, EnumRefs(property.value, false)));
      }
    }
  }

  lemma DeclareCons(g: Graph<string>, rank: map<string, nat>, field: string, structs: seq<string>)
    requires Acyclic(g, rank) && structs != []
    ensures AllDeclare(g, rank, field, structs)
       <==> structs[0] in g && Named(All(g, rank, structs[0]), field) && AllDeclare(g, rank, field, structs[1..])
  {
    hide Named, All;
    assert forall i :: 0 <= i < |structs| - 1 ==> structs[1..][i] == structs[i + 1];
    assert forall i :: 0 < i < |structs| ==> structs[i] == structs[1..][i - 1];
  }

  /** When the generators emit code at all, and then whether it keeps unknown discriminants: as the
      one enum says that the discriminants name, and as the configuration says when they name none. */
  lemma AllowsUnknownExactly(g: Graph<string>, rank: map<string, nat>, enums: Enums, field: string, structs: seq<string>,
                             fallback: bool, open: bool)
    requires Acyclic(g, rank)
    ensures AllowsUnknown(g, rank, enums, field, structs, fallback, None) == Open(open)
       <==> && AllDeclare(g, rank, field, structs)
            && (|| (NoEnumNamed(g, rank, field, structs) && open == fallback)
                || (exists name :: OneEnum(g, rank, field, structs, name) && name in enums && enums[name].open == open))
  {
    hide AllDeclare, SomeNames, EnumsFound, AnswerFrom, NoRepeats;
    AnswerIsConclusion(g, rank, enums, field, structs, fallback, []);
    var names := EnumsFound(g, rank, field, structs, []);
    forall name ensures name in names <==> SomeNames(g, rank, field, structs, name) {
      EnumsFoundMeans(g, rank, field, structs, [], name);
    }
    EnumsFoundMeans(g, rank, field, structs, [], "");
    EmptyDistinct();
    NoRepeatsMeans(names);
    if names == [] {
      assert NoEnumNamed(g, rank, field, structs);
      assert forall name :: OneEnum(g, rank, field, structs, name) ==> SomeNames(g, rank, field, structs, name);
    } else {
      assert names[0] in names;
      assert SomeNames(g, rank, field, structs, names[0]);
      assert forall name :: OneEnum(g, rank, field, structs, name) ==> name == names[0];
      if |names| == 1 {
        assert OneEnum(g, rank, field, structs, names[0]);
      } else {
        assert names[1] in names;
      }
    }
  }

  lemma EmptyDistinct()
    ensures NoRepeats([])
  {
  }

  lemma NoRepeatsMeans(names: seq<string>)
    ensures NoRepeats(names) && |names| >= 2 ==> names[0] != names[1]
  {
    assert |names| >= 2 ==> names[1..][0] == names[1];
  }

  // ---- the declaration that is found and the one that the schema keeps

  /** The interface whose own declaration the lookup finds: the first in pre-order. */
  function FirstOwner(g: Graph<string>, ghost rank: map<string, nat>, name: string, property: string): (r: Option<string>)
    requires Acyclic(g, rank)
    ensures r.Some? ==> r.value in g && Named(g[r.value].own, property)
    decreases if name in g then rank[name] + 1 else 0, 1, 0
  {
    if name !in g then None
    else if Named(g[name].own, property) then Some(name)
    else FirstOwnerInBases(g, rank, name, 0, property)
  }

  function FirstOwnerInBases(g: Graph<string>, ghost rank: map<string, nat>, name: string, i: nat, property: string): (r: Option<string>)
    requires Acyclic(g, rank) && name in g && i <= |g[name].bases|
    ensures r.Some? ==> r.value in g && Named(g[r.value].own, property)
    decreases rank[name] + 1, 0, |g[name].bases| - i
  {
    if i == |g[name].bases| then None
    else
      var owner := FirstOwner(g, rank, g[name].bases[i], property);
      if owner.Some? then owner else FirstOwnerInBases(g, rank, name, i + 1, property)
  }

  /** The interface whose own declaration comes last in the flattened list: the interface itself,
      or the one that the last base with such a property has it from. */
  function LastOwner(g: Graph<string>, ghost rank: map<string, nat>, name: string, property: string): (r: Option<string>)
    requires Acyclic(g, rank)
    ensures r.Some? ==> r.value in g && Named(g[r.value].own, property)
    decreases if name in g then rank[name] + 1 else 0, 1, 0
  {
    if name !in g then None
    else if Named(g[name].own, property) then Some(name)
    else LastOwnerInBases(g, rank, name, |g[name].bases|, property)
  }

  function LastOwnerInBases(g: Graph<string>, ghost rank: map<string, nat>, name: string, n: nat, property: string): (r: Option<string>)
    requires Acyclic(g, rank) && name in g && n <= |g[name].bases|
    ensures r.Some? ==> r.value in g && Named(g[r.value].own, property)
    decreases rank[name] + 1, 0, n
  {
    if n == 0 then None
    else
      var owner := LastOwner(g, rank, g[name].bases[n - 1], property);
      if owner.Some? then owner else LastOwnerInBases(g, rank, name, n - 1, property)
  }

  lemma {:induction false} FirstOwnerFound(g: Graph<string>, rank: map<string, nat>, name: string, property: string)
    requires Acyclic(g, rank)
    ensures (var owner := FirstOwner(g, rank, name, property); var found := PropertyInHierarchy(g, rank, name, property);
             (found.Some? <==> owner.Some?) && (owner.Some? ==> found == Some(First(g[owner.value].own, property).body)))
    decreases if name in g then rank[name] + 1 else 0, 1, 0
  {
    hide Named, First;
    if name in g && !Named(g[name].own, property) {
      FirstOwnerFoundInBases(g, rank, name, 0, property);
    }
  }

  lemma {:induction false} FirstOwnerFoundInBases(g: Graph<string>, rank: map<string, nat>, name: string, i: nat, property: string)
    requires Acyclic(g, rank) && name in g && i <= |g[name].bases|
    ensures (var owner := FirstOwnerInBases(g, rank, name, i, property); var found := InBases(g, rank, name, i, property);
             (found.Some? <==> owner.Some?) && (owner.Some? ==> found == Some(First(g[owner.value].own, property).body)))
    decreases rank[name] + 1, 0, |g[name].bases| - i
  {
    hide Named, First, FirstOwner, PropertyInHierarchy;
    if i < |g[name].bases| {
      FirstOwnerFound(g, rank, g[name].bases[i], property);
      FirstOwnerFoundInBases(g, rank, name, i + 1, property);
    }
  }

  lemma {:induction false} LastOwnerKept(g: Graph<string>, rank: map<string, nat>, name: string, property: string)
    requires Acyclic(g, rank) && name in g
    ensures (var owner := LastOwner(g, rank, name, property); var all := All(g, rank, name);
             (Named(all, property) <==> owner.Some?) && (owner.Some? ==> Last(all, property) == Last(g[owner.value].own, property)))
    decreases rank[name] + 1, 1, 0
  {
    hide Named, Last;
    var n := |g[name].bases|;
    var inherited := AllBases(g, rank, name, n);
    LastOwnerKeptInBases(g, rank, name, n, property);
    NamedConcat(inherited, g[name].own, property);
    if Named(g[name].own, property) {
      LastDeclConcat(inherited, g[name].own, property);
    } else if Named(inherited, property) {
      LastOfFront(inherited, g[name].own, property);
    }
  }

  lemma {:induction false} LastOwnerKeptInBases(g: Graph<string>, rank: map<string, nat>, name: string, n: nat, property: string)
    requires Acyclic(g, rank) && name in g && n <= |g[name].bases|
    ensures (var owner := LastOwnerInBases(g, rank, name, n, property); var all := AllBases(g, rank, name, n);
             (Named(all, property) <==> owner.Some?) && (owner.Some? ==> Last(all, property) == Last(g[owner.value].own, property)))
    decreases rank[name] + 1, 0, n
  {
    hide Named, Last, All, LastOwner;
    NoneNamed(property);
    if n > 0 {
      var base := g[name].bases[n - 1];
      var front := AllBases(g, rank, name, n - 1);
      LastOwnerKeptInBases(g, rank, name, n - 1, property);
      if base in g {
        LastOwnerKept(g, rank, base, property);
        NamedConcat(front, All(g, rank, base), property);
        if Named(All(g, rank, base), property) {
          LastDeclConcat(front, All(g, rank, base), property);
        } else if Named(front, property) {
          LastOfFront(front, All(g, rank, base), property);
        }
      } else {
        NoOwner(g, rank, base, property);
        assert front + [] == front;
      }
    }
  }

  lemma NoOwner(g: Graph<string>, rank: map<string, nat>, name: string, property: string)
    requires Acyclic(g, rank) && name !in g
    ensures LastOwner(g, rank, name, property) == None
  {
  }

  /** The lookup and the flattened list agree on a property exactly when the first interface in
      pre-order that declares it and the last one in the list declare it alike: always, for one
      declaration, when the two are the same interface. */
  lemma FoundIsMostDerivedExactly(g: Graph<string>, rank: map<string, nat>, name: string, property: string)
    requires Acyclic(g, rank) && name in g && Named(All(g, rank, name), property)
    ensures (var first := FirstOwner(g, rank, name, property); var last := LastOwner(g, rank, name, property);
             && first.Some? && last.Some?
             && (PropertyInHierarchy(g, rank, name, property) == Some(Last(All(g, rank, name), property).body)
                 <==> First(g[first.value].own, property).body == Last(g[last.value].own, property).body))
  {
    hide Named, First, Last, All, FirstOwner, LastOwner, PropertyInHierarchy;
    FoundExactly(g, rank, name, property);
    FirstOwnerFound(g, rank, name, property);
    LastOwnerKept(g, rank, name, property);
  }

  /** With two bases that declare it differently the lookup takes the first and the schema the last. */
  lemma TwoBasesDiffer(first: string, last: string)
    requires first != last
    ensures (var g: Graph<string> := map["A" := Interface([], [Decl("kind", first)]), "B" := Interface([], [Decl("kind", last)]),
                                         "C" := Interface(["A", "B"], [])];
             var rank: map<string, nat> := map["A" := 0, "B" := 0, "C" := 1];
             && Acyclic(g, rank) && Named(All(g, rank, "C"), "kind")
             && PropertyInHierarchy(g, rank, "C", "kind") == Some(first)
             && Last(All(g, rank, "C"), "kind").body == last)
  {
    var g: Graph<string> := map["A" := Interface([], [Decl("kind", first)]), "B" := Interface([], [Decl("kind", last)]),
                                "C" := Interface(["A", "B"], [])];
    var rank: map<string, nat> := map["A" := 0, "B" := 0, "C" := 1];
    var a, b := [Decl("kind", first)], [Decl("kind", last)];
    assert a[1..] == [] && b[1..] == [];
    assert Acyclic(g, rank);
    assert FirstOwner(g, rank, "A", "kind") == Some("A") && LastOwner(g, rank, "B", "kind") == Some("B");
    assert FirstOwner(g, rank, "C", "kind") == Some("A");
    assert LastOwner(g, rank, "C", "kind") == Some("B");
    FirstOwnerFound(g, rank, "C", "kind");
    LastOwnerKept(g, rank, "C", "kind");
  }

  lemma {:induction false} LastOfFront<T>(a: seq<Decl<T>>, b: seq<Decl<T>>, name: string)
    requires Named(a, name) && !Named(b, name)
    ensures Named(a + b, name) && Last(a + b, name) == Last(a, name)
  {
    assert (a + b)[1..] == a[1..] + b;
    NamedConcat(a[1..], b, name);
    if Named(a[1..], name) {
      LastOfFront(a[1..], b, name);
    }
  }

  lemma {:induction false} LastDeclConcat<T>(a: seq<Decl<T>>, b: seq<Decl<T>>, name: string)
    requires Named(b, name)
    ensures Named(a + b, name) && Last(a + b, name) == Last(b, name)
  {
    if a == [] {
      assert a + b == b;
    } else {
      assert (a + b)[1..] == a[1..] + b;
      LastDeclConcat(a[1..], b, name);
    }
  }
}
