/** Which JSON values the schema of a printed type accepts: exactly the values of the type. */
module SchemaMeaning {
  import opened JsText
  import opened Wire
  import opened Schema
  import opened TypeText
  import opened TypeCompiler
  import opened BracketText
  import opened PrintedType
  import opened TypeReading
  import opened Properties
  import opened TypeRoundTrip
  import opened UnionReading
  import opened TypeReferences

  /** Which values the definition of a name accepts. */
  type Definitions = (string, WireValue) -> bool

  // ---- schemas

  /** The `type` keyword. */
  predicate OfKind(kind: string, v: WireValue) {
    || kind == ""
    || (kind == "string" && v.Str?)
    || (kind == "number" && v.Num?)
    || (kind == "boolean" && v.Bool?)
    || (kind == "null" && v.Null?)
    || (kind == "array" && v.List?)
    || (kind == "object" && v.Obj?)
  }

  /** JSON Schema validation, for the keywords that type texts compile to. */
  ghost predicate Valid(defs: Definitions, n: Node, v: WireValue)
    decreases n, 0
  {
    && OfKind(n.kind, v)
    && (n.ref.Some? ==> exists name :: n.ref.value == DEFS_PREFIX + name && defs(name, v))
    && (n.enumValues != [] ==> v.Str? && v.chars in n.enumValues)
    && (n.constant.Some? ==> v == Str(n.constant.value))
    && (n.items.Some? && v.List? ==> forall i :: 0 <= i < |v.items| ==> Valid(defs, n.items.value, v.items[i]))
    && (v.Obj? ==>
          && (forall i :: 0 <= i < |n.properties| && n.properties[i].name in v.fields ==>
                Valid(defs, n.properties[i].schema, v.fields[n.properties[i].name]))
          && (forall name :: name in n.required ==> name in v.fields)
          && (n.additional.Some? ==>
                forall name :: name in v.fields && !(exists i :: 0 <= i < |n.properties| && n.properties[i].name == name) ==>
                  Valid(defs, n.additional.value, v.fields[name])))
    && (n.oneOf != [] ==> OneValid(defs, n.oneOf, v))
  }

  ghost predicate NoneValid(defs: Definitions, ns: seq<Node>, v: WireValue)
    decreases ns, 1
  {
    ns == [] || (!Valid(defs, ns[0], v) && NoneValid(defs, ns[1..], v))
  }

  /** Exactly one of the nodes accepts the value. */
  ghost predicate OneValid(defs: Definitions, ns: seq<Node>, v: WireValue)
    decreases ns, 1
  {
    ns != [] && if Valid(defs, ns[0], v) then NoneValid(defs, ns[1..], v) else OneValid(defs, ns[1..], v)
  }

  // ---- types

  predicate Mandatory(f: FieldTy) {
    !f.optional && !Admits(f.ty)
  }

  /** The value is one of the type, where a union takes only values of exactly one member, which is
      `oneOf`.  Of fields with one name the last one gives the type. */
  ghost predicate Inhabits(p: Project, defs: Definitions, t: Ty, v: WireValue, stack: nat)
    decreases t, 0
  {
    match t
    case Simple(word) =>
      && (word == "string" ==> v.Str?) && (word == "number" ==> v.Num?) && (word == "boolean" ==> v.Bool?)
      && (word == "null" ==> v.Null?) && (word == "object" ==> v.Obj?)
    case Undef => true
    case Name(name) => defs(name, v)
    case Member(enum, key) =>
      if enum in p.enums && key in p.enums[enum] then v == Str(p.enums[enum][key]) else defs(enum + "." + key, v)
    case Lits(values) => v.Str? && v.chars in values
    case Arr(elem) => v.List? && forall i :: 0 <= i < |v.items| ==> Inhabits(p, defs, elem, v.items[i], stack)
    case Rec(value) => v.Obj? && forall name :: name in v.fields ==> Inhabits(p, defs, value, v.fields[name], stack)
    case Partial(name) =>
      if name !in p.interfaces then defs("Partial<" + name + ">", v)
      else stack > 0 ==> v.Obj? && Inlined(p, defs, p.interfaces[name], v, stack - 1)
    case Union(members) => AllUndefined(members) || Holding(p, defs, members, v, stack) == 1
    case Obj(fields) => v.Obj? && FieldsHold(p, defs, fields, v, stack)
  }

  /** A property that is there has the type declared last for its name. */
  ghost predicate Inlined(p: Project, defs: Definitions, props: seq<Prop>, v: WireValue, stack: nat)
    requires v.Obj?
  {
    forall i :: LastNamed(props, i) && props[i].name in v.fields ==>
      Valid(defs, NodeOf(p, props[i].text, stack), v.fields[props[i].name])
  }

  predicate AllUndefined(ts: seq<Ty>) {
    ts == [] || (ts[0].Undef? && AllUndefined(ts[1..]))
  }

  /** How many of the members other than `undefined` have the value. */
  ghost function Holding(p: Project, defs: Definitions, ts: seq<Ty>, v: WireValue, stack: nat): nat
    decreases ts, 1
  {
    if ts == [] then 0
    else
      (if !ts[0].Undef? && Inhabits(p, defs, ts[0], v, stack) then 1 else 0) + Holding(p, defs, ts[1..], v, stack)
  }

  ghost predicate FieldsHold(p: Project, defs: Definitions, fields: seq<FieldTy>, v: WireValue, stack: nat)
    requires v.Obj?
    decreases fields, 1
  {
    fields == [] ||
    (var f := fields[0];
     && (Mandatory(f) ==> f.name in v.fields)
     && (f.name in v.fields && !HasField(fields[1..], f.name) ==> Inhabits(p, defs, f.ty, v.fields[f.name], stack))
     && FieldsHold(p, defs, fields[1..], v, stack))
  }

  // ---- the nodes, one form at a time

  lemma KindMeans(defs: Definitions, n: Node, v: WireValue)
    requires n == Anything.(kind := n.kind, enumValues := n.enumValues, constant := n.constant)
    ensures Valid(defs, n, v) <==> && OfKind(n.kind, v) && (n.enumValues != [] ==> v.Str? && v.chars in n.enumValues)
                                   && (n.constant.Some? ==> v == Str(n.constant.value))
  {
  }

  lemma RefMeans(defs: Definitions, name: string, v: WireValue)
    ensures Valid(defs, RefNode(name), v) <==> defs(name, v)
  {
    var n := RefNode(name);
    assert n.ref.value == DEFS_PREFIX + name;
    forall other | n.ref.value == DEFS_PREFIX + other ensures other == name {
      Cancel(DEFS_PREFIX, other, name);
    }
  }

  lemma ArrayMeans(defs: Definitions, item: Node, v: WireValue)
    ensures Valid(defs, ArrayNode(item), v) <==> v.List? && forall i :: 0 <= i < |v.items| ==> Valid(defs, item, v.items[i])
  {
  }

  lemma RecordMeans(defs: Definitions, value: Node, v: WireValue)
    ensures Valid(defs, RecordNode(value), v)
       <==> v.Obj? && forall name :: name in v.fields ==> Valid(defs, value, v.fields[name])
  {
  }

  lemma BranchesMean(defs: Definitions, ns: seq<Node>, v: WireValue)
    requires ns != []
    ensures Valid(defs, OneOfNode(ns), v) <==> OneValid(defs, ns, v)
  {
    hide OneValid;
  }

  lemma OneValidCons(defs: Definitions, first: Node, rest: seq<Node>, v: WireValue)
    ensures NoneValid(defs, [first] + rest, v) <==> !Valid(defs, first, v) && NoneValid(defs, rest, v)
    ensures OneValid(defs, [first] + rest, v)
       <==> if Valid(defs, first, v) then NoneValid(defs, rest, v) else OneValid(defs, rest, v)
  {
    hide Valid;
    assert ([first] + rest)[1..] == rest;
  }

  /** A property that is there and has a value that its schema does not accept. */
  ghost function Spoiling(defs: Definitions, v: WireValue): Property -> bool
    requires v.Obj?
  {
    (q: Property) => q.name in v.fields && !Valid(defs, q.schema, v.fields[q.name])
  }

  lemma ObjectNodeMeans(defs: Definitions, n: Node, v: WireValue)
    requires PlainObject(n)
    ensures Valid(defs, n, v) <==> v.Obj? && !Kept(n.properties, [], Spoiling(defs, v))
                                   && forall name :: name in n.required ==> name in v.fields
  {
    if v.Obj? {
      assert forall name :: !HasField([], name);
    }
  }

  // ---- the theorem

  lemma {:induction false} MembersMean(p: Project, defs: Definitions, ts: seq<Ty>, v: WireValue, stack: nat)
    requires AllPrintable(ts)
    ensures NoneValid(defs, SemAll(p, ts, stack), v) <==> Holding(p, defs, ts, v, stack) == 0
    ensures OneValid(defs, SemAll(p, ts, stack), v) <==> Holding(p, defs, ts, v, stack) == 1
    ensures SemAll(p, ts, stack) == [] <==> AllUndefined(ts)
    decreases ts, 0
  {
    hide Valid, NoneValid, OneValid, Sem, Inhabits, Printable;
    if ts == [] {
      NoNodes(defs, v);
    } else {
      var rest := SemAll(p, ts[1..], stack);
      MembersMean(p, defs, ts[1..], v, stack);
      TypeMeans(p, defs, ts[0], v, stack);
      OneValidCons(defs, Sem(p, ts[0], stack), rest, v);
      assert [] + rest == rest;
    }
  }

  lemma NoNodes(defs: Definitions, v: WireValue)
    ensures NoneValid(defs, [], v) && !OneValid(defs, [], v)
  {
  }

  lemma UnionNodeMeans(defs: Definitions, ns: seq<Node>, v: WireValue)
    ensures Valid(defs, UnionNode(ns), v) <==> ns == [] || OneValid(defs, ns, v)
  {
    if ns == [] {
    } else if |ns| == 1 {
      hide Valid;
      assert ns[1..] == [];
    } else {
      BranchesMean(defs, ns, v);
      hide Valid, OneValid;
    }
  }

  lemma {:induction false} FieldsMean(p: Project, defs: Definitions, fields: seq<FieldTy>, sofar: Node, v: WireValue, stack: nat)
    requires AllFieldsPrintable(fields) && PlainObject(sofar) && NoRepeats(PropertyNames(sofar.properties)) && v.Obj?
    ensures (var n := SemFields(p, fields, sofar, stack);
             && PlainObject(n)
             && (!Kept(n.properties, [], Spoiling(defs, v)) && (forall name :: name in n.required ==> name in v.fields)
                 <==> && !Kept(sofar.properties, fields, Spoiling(defs, v))
                      && (forall name :: name in sofar.required ==> name in v.fields)
                      && FieldsHold(p, defs, fields, v, stack)))
    decreases fields, 0
  {
    hide Valid, Sem, Inhabits, SetProperty, Kept, NoRepeats, PropertyNames, HasField, Admits, Printable, IsWord, Print;
    if fields != [] {
      var f, rest := fields[0], fields[1..];
      var such := Spoiling(defs, v);
      var next := WithField(p, sofar, f, stack);
      SetPropertyNames(sofar.properties, f.name, Sem(p, f.ty, stack));
      SetKept(sofar.properties, f, Sem(p, f.ty, stack), rest, such);
      assert [f] + rest == fields;
      FieldsMean(p, defs, rest, next, v, stack);
      if f.name in v.fields {
        TypeMeans(p, defs, f.ty, v.fields[f.name], stack);
      }
      assert next.required == if Mandatory(f) then sofar.required + [f.name] else sofar.required;
    }
  }

  lemma OutlineMeans(p: Project, defs: Definitions, props: seq<Prop>, v: WireValue, stack: nat)
    requires v.Obj?
    ensures !Kept(Outline(p, props, stack), [], Spoiling(defs, v)) <==> Inlined(p, defs, props, v, stack)
  {
    hide Valid, NodeOf, DeclaredNames, LastText, LastNamed, Declares, HasField;
    var ps, names, such := Outline(p, props, stack), DeclaredNames(props), Spoiling(defs, v);
    DeclaredNamesMean(props);
    NoFields();
    forall i ensures LastNamed(props, i) ==> 0 <= i < |props| {
      LastInRange(props, i);
    }
    if Kept(ps, [], such) {
      var k :| 0 <= k < |ps| && !HasField([], ps[k].name) && such(ps[k]);
      assert names[k] in names;
      var i := LastIsNamed(props, names[k]);
    }
    if !Inlined(p, defs, props, v, stack) {
      var i :| LastNamed(props, i) && props[i].name in v.fields
               && !Valid(defs, NodeOf(p, props[i].text, stack), v.fields[props[i].name]);
      DeclaredAt(props, i);
      var j := LastIsNamed(props, props[i].name);
      SameLast(props, i, j);
      var k :| 0 <= k < |names| && names[k] == props[i].name;
      assert such(ps[k]);
    }
  }

  lemma NoFields()
    ensures forall name :: !HasField([], name)
  {
  }

  lemma PartialMeans(p: Project, defs: Definitions, props: seq<Prop>, v: WireValue, stack: nat)
    ensures Valid(defs, PartialNode(p, props, stack), v)
       <==> (stack > 0 ==> v.Obj? && Inlined(p, defs, props, v, stack - 1))
  {
    hide Valid, Outline, Kept, Inlined;
    if stack == 0 {
      KindMeans(defs, Anything, v);
    } else {
      ObjectNodeMeans(defs, PartialNode(p, props, stack), v);
      if v.Obj? {
        OutlineMeans(p, defs, props, v, stack - 1);
      }
    }
  }

  lemma SimpleMeans(defs: Definitions, word: string, v: WireValue)
    requires word in SIMPLE
    ensures Valid(defs, SimpleNode(word), v)
       <==> && (word == "string" ==> v.Str?) && (word == "number" ==> v.Num?) && (word == "boolean" ==> v.Bool?)
            && (word == "null" ==> v.Null?) && (word == "object" ==> v.Obj?)
  {
    hide Valid;
    KindMeans(defs, SimpleNode(word), v);
  }

  lemma MemberMeans(p: Project, defs: Definitions, enum: string, key: string, v: WireValue)
    ensures Valid(defs, MemberNode(p, enum, key), v)
       <==> if enum in p.enums && key in p.enums[enum] then v == Str(p.enums[enum][key]) else defs(enum + "." + key, v)
  {
    hide Valid;
    KindMeans(defs, Anything.(constant := EnumValue(p, enum, key)), v);
    RefMeans(defs, enum + "." + key, v);
  }

  lemma {:induction false} TypeMeans(p: Project, defs: Definitions, t: Ty, v: WireValue, stack: nat)
    requires Printable(t)
    ensures Valid(defs, Sem(p, t, stack), v) <==> Inhabits(p, defs, t, v, stack)
    decreases t, 1
  {
    hide Valid, Inlined, PartialNode, UnionNode, SimpleNode, MemberNode, RefNode, ArrayNode, RecordNode, SemFields, SemAll;
    hide Readable, IsWord, CapitalWord, LiteralTexts, AllFieldsPrintable, AllPrintable, FieldsHold, Kept, EMPTY_OBJECT, SIMPLE;
    match t {
      case Simple(word) => SimpleMeans(defs, word, v);
      case Undef => KindMeans(defs, Anything, v);
      case Lits(values) => KindMeans(defs, EnumNode(values), v);
      case Name(name) => RefMeans(defs, name, v);
      case Member(enum, key) => MemberMeans(p, defs, enum, key, v);
      case Arr(elem) =>
        ArrayMeans(defs, Sem(p, elem, stack), v);
        forall w ensures Valid(defs, Sem(p, elem, stack), w) <==> Inhabits(p, defs, elem, w, stack) {
          TypeMeans(p, defs, elem, w, stack);
        }
      case Rec(value) =>
        RecordMeans(defs, Sem(p, value, stack), v);
        forall w ensures Valid(defs, Sem(p, value, stack), w) <==> Inhabits(p, defs, value, w, stack) {
          TypeMeans(p, defs, value, w, stack);
        }
      case Partial(name) =>
        RefMeans(defs, PartialText(name), v);
        if name in p.interfaces {
          PartialMeans(p, defs, p.interfaces[name], v, stack);
        }
      case Union(members) => MembersMean(p, defs, members, v, stack); UnionNodeMeans(defs, SemAll(p, members, stack), v);
      case Obj(fields) => ObjMeans(p, defs, fields, v, stack);
    }
  }

  lemma ObjMeans(p: Project, defs: Definitions, fields: seq<FieldTy>, v: WireValue, stack: nat)
    requires AllFieldsPrintable(fields)
    ensures Valid(defs, SemFields(p, fields, EMPTY_OBJECT, stack), v) <==> v.Obj? && FieldsHold(p, defs, fields, v, stack)
    decreases fields, 2
  {
    hide Valid, SemFields, Kept, EMPTY_OBJECT, AllFieldsPrintable, FieldsHold;
    NothingYet(fields);
    FieldRefs(p, fields, EMPTY_OBJECT, stack, "");
    ObjectNodeMeans(defs, SemFields(p, fields, EMPTY_OBJECT, stack), v);
    if v.Obj? {
      FieldsMean(p, defs, fields, EMPTY_OBJECT, v, stack);
      NothingKept(fields, Spoiling(defs, v));
    }
  }

  lemma NothingYet(fields: seq<FieldTy>)
    ensures PlainObject(EMPTY_OBJECT) && NoRepeats(PropertyNames(EMPTY_OBJECT.properties)) && EMPTY_OBJECT.required == []
  {
  }

  lemma NothingKept(fields: seq<FieldTy>, such: Property -> bool)
    ensures !Kept(EMPTY_OBJECT.properties, fields, such)
  {
  }

  /** The schema that the text of a type compiles to accepts exactly the values of the type. */
  lemma CompileKeepsMeaning(p: Project, defs: Definitions, t: Ty, v: WireValue, depth: nat, stack: nat)
    requires Printable(t) && Compile(p, Print(t), depth, stack).Ok?
    ensures Valid(defs, Compile(p, Print(t), depth, stack).value, v) <==> Inhabits(p, defs, t, v, stack)
  {
    hide *;
    CompileUndoesPrint(p, t, depth, stack);
    TypeMeans(p, defs, t, v, stack);
  }

  /** A value of two members is a value of the union in TypeScript, and the schema rejects it. */
  lemma OverlapRejected(p: Project, defs: Definitions, text: string, stack: nat)
    ensures (var t := Union([Simple("unknown"), Simple("string")]);
             && Printable(t) && Print(t) == "unknown | string"
             && Inhabits(p, defs, Simple("unknown"), Str(text), stack) && Inhabits(p, defs, Simple("string"), Str(text), stack)
             && Compile(p, "unknown | string", 0, stack).Ok?
             && !Valid(defs, Compile(p, "unknown | string", 0, stack).value, Str(text)))
  {
    hide Compile, Valid, Sem, Readable, Fits, Ready;
    var a, b := Simple("unknown"), Simple("string");
    OverlapPrintable(p, a, b, stack);
    hide Printable, Print, Inhabits, Holding;
    OverlapHolds(p, defs, a, b, text, stack);
    CompileUndoesPrint(p, Union([a, b]), 0, stack);
    CompileKeepsMeaning(p, defs, Union([a, b]), Str(text), 0, stack);
  }

  lemma OverlapHolds(p: Project, defs: Definitions, a: Ty, b: Ty, text: string, stack: nat)
    requires a == Simple("unknown") && b == Simple("string")
    ensures Inhabits(p, defs, a, Str(text), stack) && Inhabits(p, defs, b, Str(text), stack)
    ensures !Inhabits(p, defs, Union([a, b]), Str(text), stack)
  {
    assert Inhabits(p, defs, a, Str(text), stack) by { OtherWords(); }
    assert Inhabits(p, defs, b, Str(text), stack) by { OtherWords(); }
    HoldsTwice(p, defs, a, b, Str(text), stack);
  }

  lemma OtherWords()
    ensures "unknown" !in ["string", "number", "boolean", "null", "object"]
    ensures "string" !in ["number", "boolean", "null", "object"]
  {
  }

  lemma HoldsTwice(p: Project, defs: Definitions, a: Ty, b: Ty, v: WireValue, stack: nat)
    requires !a.Undef? && !b.Undef? && Inhabits(p, defs, a, v, stack) && Inhabits(p, defs, b, v, stack)
    ensures !Inhabits(p, defs, Union([a, b]), v, stack)
  {
    var both, last := [a, b], [b];
    assert both[1..] == last && last[1..] == [];
    HoldingStep(p, defs, both, v, stack);
    HoldingStep(p, defs, last, v, stack);
  }

  lemma HoldingStep(p: Project, defs: Definitions, ts: seq<Ty>, v: WireValue, stack: nat)
    requires ts != [] && !ts[0].Undef? && Inhabits(p, defs, ts[0], v, stack)
    ensures Holding(p, defs, ts, v, stack) == 1 + Holding(p, defs, ts[1..], v, stack)
  {
    hide Inhabits;
  }

  lemma OverlapPrintable(p: Project, a: Ty, b: Ty, stack: nat)
    requires a == Simple("unknown") && b == Simple("string")
    ensures Printable(Union([a, b])) && Print(Union([a, b])) == "unknown | string"
    ensures Fits(Union([a, b]), 0) && Ready(p, Union([a, b]), stack)
  {
    OverlapMembers(a, b);
    OverlapReady(p, a, b, stack);
    LastOfMembers(b);
    FirstOfMembers(a, [b]);
    hide *;
    assert [a] + [b] == [a, b];
    OverlapText();
    PairPrintable(a, b);
  }

  lemma OverlapMembers(a: Ty, b: Ty)
    requires a == Simple("unknown") && b == Simple("string")
    ensures Printable(a) && Printable(b) && Wrap(a) == "unknown" && Wrap(b) == "string" && Fits(a, 1) && Fits(b, 1)
  {
  }

  lemma OverlapReady(p: Project, a: Ty, b: Ty, stack: nat)
    requires a == Simple("unknown") && b == Simple("string")
    ensures Ready(p, Union([a, b]), stack)
  {
    assert [a, b][1..] == [b] && [b][1..] == [];
    assert AllReady(p, [b], stack);
    assert AllReady(p, [a, b], stack);
  }

  lemma OverlapText()
    ensures Bars(["unknown"] + ["string"]) == "unknown | string" && Splittable("unknown | string")
  {
    assert (["unknown"] + ["string"])[1..] == ["string"];
    assert "unknown" + " | " + "string" == "unknown | string";
    OverlapSplits("unknown | string");
  }

  lemma OverlapSplits(s: string)
    requires s == "unknown | string"
    ensures Splittable(s)
  {
    assert s[0] == 'u' && s[|s| - 1] == 'g' && "[]"[1] == ']' && RECORD[0] == 'R';
  }

  lemma PairPrintable(a: Ty, b: Ty)
    requires AllPrintable([a, b]) && !b.Undef? && Splittable(Bars(Wraps([a, b]))) && FitsAll([a, b], 1)
    ensures Printable(Union([a, b])) && Fits(Union([a, b]), 0) && Print(Union([a, b])) == Bars(Wraps([a, b]))
  {
    hide AllPrintable, Splittable, Bars, Wraps, FitsAll;
  }

  /** The schema of an interface accepts exactly the objects that have the required properties, and
      whose properties have the types declared last for them. */
  lemma InterfaceKeepsMeaning(p: Project, defs: Definitions, props: seq<Prop>, v: WireValue, stack: nat)
    requires CompileProps(p, props, EMPTY_OBJECT, stack).Ok?
    ensures Valid(defs, CompileProps(p, props, EMPTY_OBJECT, stack).value, v)
       <==> && v.Obj? && Inlined(p, defs, props, v, stack)
            && forall name :: Demands(props, name) ==> name in v.fields
  {
    hide Valid, CompileProps, Outline, Inlined, Kept, AllCompile, Demands, Describes, Declares, LastNamed, PropertyNames, NoRepeats;
    PropsOutline(p, props, stack);
    InterfaceSchema(p, props, stack);
    ObjectNodeMeans(defs, CompileProps(p, props, EMPTY_OBJECT, stack).value, v);
    if v.Obj? {
      OutlineMeans(p, defs, props, v, stack);
    }
  }
}
