/** Which definitions the schema of a printed type refers to. */
module TypeReferences {
  import opened JsText
  import opened Schema
  import opened TypeText
  import opened TypeCompiler
  import opened PrintedType
  import opened TypeReading
  import opened Properties
  import opened TypeRoundTrip

  // ---- the names in a type

  /** A later field has the same name. */
  predicate HasField(fields: seq<FieldTy>, name: string) {
    exists i :: 0 <= i < |fields| && fields[i].name == name
  }

  /** The names that a type refers to: interfaces, enum members without a known value, and what is
      inlined for `Partial<>`.  Of fields with one name the last one counts. */
  ghost function NamesIn(p: Project, t: Ty, stack: nat): set<string>
    decreases t, 0
  {
    match t
    case Name(name) => {name}
    case Member(enum, key) => if enum in p.enums && key in p.enums[enum] then {} else {enum + "." + key}
    case Arr(elem) => NamesIn(p, elem, stack)
    case Rec(value) => NamesIn(p, value, stack)
    case Partial(name) =>
      if name !in p.interfaces then {"Partial<" + name + ">"}
      else if stack == 0 then {}
      else InlinedNames(p, p.interfaces[name], stack - 1)
    case Union(members) => NamesInAll(p, members, stack)
    case Obj(fields) => NamesInFields(p, fields, stack)
    case _ => {}
  }

  ghost function NamesInAll(p: Project, ts: seq<Ty>, stack: nat): set<string>
    decreases ts, 1
  {
    if ts == [] then {} else NamesIn(p, ts[0], stack) + NamesInAll(p, ts[1..], stack)
  }

  ghost function NamesInFields(p: Project, fields: seq<FieldTy>, stack: nat): set<string>
    decreases fields, 1
  {
    if fields == [] then {}
    else
      (if HasField(fields[1..], fields[0].name) then {} else NamesIn(p, fields[0].ty, stack))
      + NamesInFields(p, fields[1..], stack)
  }

  /** The references in the properties of an interface, each as declared last. */
  ghost function InlinedNames(p: Project, props: seq<Prop>, stack: nat): set<string> {
    set i, name | 0 <= i < |props| && LastNamed(props, i) && name in Refs(NodeOf(p, props[i].text, stack)) :: name
  }

  // ---- the references of the nodes

  lemma RefsMean(n: Node, name: string)
    ensures name in Refs(n)
       <==> (n.ref == Some("#/$defs/" + name) && IsLine(name)) || exists c :: Under(n, c) && name in Refs(c)
  {
    ChildrenSmaller(n);
    RefsUnfold(n);
    hide Refs, IsLine, Under, Children;
    if n.ref.Some? {
      RefTargetMeans(n.ref.value, name);
    }
  }

  lemma NoRefs(n: Node)
    requires n.ref.None? && n.items.None? && n.contains.None? && n.additional.None? && n.not.None?
    requires n.properties == [] && n.defs == [] && n.oneOf == [] && n.allOf == [] && n.anyOf == []
    ensures Refs(n) == {}
  {
    hide Refs, IsLine;
    forall name ensures name !in Refs(n) {
      RefsMean(n, name);
    }
  }

  lemma OneRef(name: string)
    requires IsLine(name)
    ensures Refs(RefNode(name)) == {name}
  {
    hide Refs, IsLine;
    var n := RefNode(name);
    assert n.ref == Some("#/$defs/" + name);
    forall other ensures other in Refs(n) <==> other == name {
      RefsMean(n, other);
      Cancel("#/$defs/", other, name);
    }
  }

  lemma Cancel(prefix: string, a: string, b: string)
    ensures prefix + a == prefix + b ==> a == b
  {
    assert (prefix + a)[|prefix|..] == a && (prefix + b)[|prefix|..] == b;
  }

  lemma ArrayRefs(item: Node)
    ensures Refs(ArrayNode(item)) == Refs(item)
  {
    hide Refs, IsLine;
    forall name ensures name in Refs(ArrayNode(item)) <==> name in Refs(item) {
      RefsMean(ArrayNode(item), name);
      assert Under(ArrayNode(item), item);
    }
  }

  lemma RecordRefs(value: Node)
    ensures Refs(RecordNode(value)) == Refs(value)
  {
    hide Refs, IsLine;
    forall name ensures name in Refs(RecordNode(value)) <==> name in Refs(value) {
      RefsMean(RecordNode(value), name);
      assert Under(RecordNode(value), value);
    }
  }

  lemma BranchRefs(branches: seq<Node>)
    ensures Refs(OneOfNode(branches)) == RefsOf(branches)
  {
    hide Refs, IsLine;
    forall name ensures name in Refs(OneOfNode(branches)) <==> name in RefsOf(branches) {
      RefsMean(OneOfNode(branches), name);
      forall c | c in branches ensures Under(OneOfNode(branches), c) {
      }
    }
  }

  lemma RefsOfCons(first: Node, rest: seq<Node>)
    ensures RefsOf([first] + rest) == Refs(first) + RefsOf(rest)
  {
    hide Refs;
    forall name ensures name in RefsOf([first] + rest) <==> name in Refs(first) || name in RefsOf(rest) {
      assert first in [first] + rest;
      if name in RefsOf(rest) {
        var c :| c in rest && name in Refs(c);
        assert c in [first] + rest;
      }
    }
  }

  // ---- objects

  /** A property of `ps` that none of the fields replaces is such a one. */
  ghost predicate Kept(ps: seq<Property>, fields: seq<FieldTy>, such: Property -> bool) {
    exists i :: 0 <= i < |ps| && !HasField(fields, ps[i].name) && such(ps[i])
  }

  ghost function Mentioning(name: string): Property -> bool {
    (q: Property) => name in Refs(q.schema)
  }

  ghost predicate KeptRef(ps: seq<Property>, fields: seq<FieldTy>, name: string) {
    Kept(ps, fields, Mentioning(name))
  }

  /** An object node without anything but a type, properties and required names. */
  predicate PlainObject(n: Node) {
    n == Anything.(kind := "object", properties := n.properties, required := n.required)
  }

  lemma ObjectRefs(n: Node, name: string)
    requires PlainObject(n)
    ensures name in Refs(n) <==> KeptRef(n.properties, [], name)
  {
    hide Refs, IsLine;
    RefsMean(n, name);
    if c :| Under(n, c) && name in Refs(c) {
      var i :| 0 <= i < |n.properties| && n.properties[i].schema == c;
      assert !HasField([], n.properties[i].name);
    }
    if KeptRef(n.properties, [], name) {
      var i :| 0 <= i < |n.properties| && name in Refs(n.properties[i].schema);
      assert Under(n, n.properties[i].schema);
    }
  }

  lemma HasFieldCons(fields: seq<FieldTy>, name: string)
    requires fields != []
    ensures HasField(fields, name) <==> fields[0].name == name || HasField(fields[1..], name)
  {
    if HasField(fields[1..], name) {
      var i :| 0 <= i < |fields[1..]| && fields[1..][i].name == name;
      assert fields[i + 1].name == name;
    }
    if HasField(fields, name) {
      var i :| 0 <= i < |fields| && fields[i].name == name;
      assert i > 0 ==> fields[1..][i - 1].name == name;
    }
  }

  lemma DescribedAt(ps: seq<Property>, i: nat)
    requires i < |ps|
    ensures Describes(ps, ps[i].name, ps[i].schema)
  {
  }

  /** What is kept when a property is set: the others, and the new one unless a later field
      replaces it. */
  lemma SetKept(ps: seq<Property>, f: FieldTy, schema: Node, rest: seq<FieldTy>, such: Property -> bool)
    requires NoRepeats(PropertyNames(ps))
    ensures Kept(SetProperty(ps, f.name, schema), rest, such)
       <==> Kept(ps, [f] + rest, such) || (!HasField(rest, f.name) && such(Property(f.name, schema)))
  {
    hide SetProperty, HasField, PropertyNames, NoRepeats;
    var next, all := SetProperty(ps, f.name, schema), [f] + rest;
    assert all[1..] == rest;
    forall n ensures HasField(all, n) <==> f.name == n || HasField(rest, n) {
      HasFieldCons(all, n);
    }
    SetPropertyDescribes(ps, f.name, schema);
    SetPropertyNames(ps, f.name, schema);
    if Kept(next, rest, such) {
      var i :| 0 <= i < |next| && !HasField(rest, next[i].name) && such(next[i]);
      DescribedAt(next, i);
      if next[i].name == f.name {
        DescribedOnce(next, f.name, next[i].schema, schema);
      } else {
        assert Describes(ps, next[i].name, next[i].schema);
        var k :| 0 <= k < |ps| && ps[k] == Property(next[i].name, next[i].schema);
        assert !HasField(all, ps[k].name);
      }
    }
    if Kept(ps, all, such) {
      var i :| 0 <= i < |ps| && !HasField(all, ps[i].name) && such(ps[i]);
      DescribedAt(ps, i);
      assert Describes(next, ps[i].name, ps[i].schema);
      var k :| 0 <= k < |next| && next[k] == Property(ps[i].name, ps[i].schema);
    }
    if !HasField(rest, f.name) && such(Property(f.name, schema)) {
      var k :| 0 <= k < |next| && next[k] == Property(f.name, schema);
    }
  }

  lemma {:induction false} NameAt(ps: seq<Property>, i: nat)
    requires i < |ps|
    ensures PropertyNames(ps)[i] == ps[i].name
  {
    if i > 0 {
      NameAt(ps[1..], i - 1);
    }
  }

  lemma DescribedOnce(ps: seq<Property>, name: string, a: Node, b: Node)
    requires NoRepeats(PropertyNames(ps)) && Describes(ps, name, a) && Describes(ps, name, b)
    ensures a == b
  {
    hide PropertyNames, NoRepeats;
    var i :| 0 <= i < |ps| && ps[i] == Property(name, a);
    var j :| 0 <= j < |ps| && ps[j] == Property(name, b);
    NameAt(ps, i);
    NameAt(ps, j);
    if i != j {
      NoRepeatsAt(PropertyNames(ps), if i < j then i else j, if i < j then j else i);
    }
  }

  lemma KeptNone(ps: seq<Property>, name: string)
    requires ps == []
    ensures !KeptRef(ps, [], name)
  {
  }

  lemma {:induction false} FieldRefs(p: Project, fields: seq<FieldTy>, sofar: Node, stack: nat, name: string)
    requires AllFieldsPrintable(fields) && PlainObject(sofar) && NoRepeats(PropertyNames(sofar.properties))
    ensures PlainObject(SemFields(p, fields, sofar, stack))
    ensures KeptRef(SemFields(p, fields, sofar, stack).properties, [], name)
       <==> KeptRef(sofar.properties, fields, name) || name in NamesInFields(p, fields, stack)
    decreases fields, 0
  {
    hide Refs, NamesIn, Sem, SetProperty, Kept, NoRepeats, PropertyNames, HasField, Admits, Printable, IsWord, Print;
    if fields != [] {
      var f, rest := fields[0], fields[1..];
      SchemaRefs(p, f.ty, stack);
      var next := WithField(p, sofar, f, stack);
      SetPropertyNames(sofar.properties, f.name, Sem(p, f.ty, stack));
      SetKept(sofar.properties, f, Sem(p, f.ty, stack), rest, Mentioning(name));
      assert [f] + rest == fields;
      FieldRefs(p, rest, next, stack, name);
    }
  }

  // ---- the whole type

  lemma WordIsLine(s: string)
    requires forall i :: 0 <= i < |s| ==> IsWordChar(s[i]) || s[i] == '.' || s[i] == '<' || s[i] == '>'
    ensures s != "" ==> IsLine(s)
  {
  }

  lemma LeafRefs(p: Project, t: Ty, stack: nat)
    requires Printable(t)
    ensures t.Simple? || t.Undef? || t.Lits? ==> Refs(Sem(p, t, stack)) == {}
    ensures t.Name? ==> IsLine(t.name)
    ensures t.Member? ==> IsLine(t.enum + "." + t.key)
    ensures t.Partial? ==> IsLine(PartialText(t.name))
  {
    match t {
      case Simple(word) => NoRefs(SimpleNode(word));
      case Undef => NoRefs(Anything);
      case Lits(values) => NoRefs(EnumNode(values));
      case Name(name) => WordIsLine(name);
      case Member(enum, key) => WordIsLine(enum + "." + key);
      case Partial(name) => WordIsLine(PartialText(name));
      case _ =>
    }
  }

  lemma ConstantRefs(value: Option<string>)
    ensures Refs(Anything.(constant := value)) == {}
  {
    NoRefs(Anything.(constant := value));
  }

  lemma {:induction false} LastIsNamed(props: seq<Prop>, name: string) returns (i: nat)
    requires Declares(props, name)
    ensures LastNamed(props, i) && props[i].name == name && LastText(props, name) == props[i].text
  {
    var front, last := props[..|props| - 1], props[|props| - 1];
    assert props == front + [last];
    if last.name == name {
      i := |props| - 1;
    } else {
      DeclaresSnoc(front, last, name);
      i := LastIsNamed(front, name);
      forall j | i < j < |props| ensures props[j].name != name {
        assert j < |front| ==> props[j] == front[j];
      }
    }
  }

  lemma SameLast(props: seq<Prop>, i: int, j: int)
    requires LastNamed(props, i) && LastNamed(props, j) && props[i].name == props[j].name
    ensures i == j
  {
  }

  lemma OutlineRefs(p: Project, props: seq<Prop>, stack: nat, name: string)
    ensures KeptRef(Outline(p, props, stack), [], name) <==> name in InlinedNames(p, props, stack)
  {
    hide Refs, NodeOf, DeclaredNames, LastText, LastNamed, Declares;
    var ps, names := Outline(p, props, stack), DeclaredNames(props);
    DeclaredNamesMean(props);
    if KeptRef(ps, [], name) {
      var k :| 0 <= k < |ps| && !HasField([], ps[k].name) && name in Refs(ps[k].schema);
      assert names[k] in names;
      var i := LastIsNamed(props, names[k]);
      LastInRange(props, i);
    }
    if name in InlinedNames(p, props, stack) {
      var i :| 0 <= i < |props| && LastNamed(props, i) && name in Refs(NodeOf(p, props[i].text, stack));
      DeclaredAt(props, i);
      var j := LastIsNamed(props, props[i].name);
      SameLast(props, i, j);
      var k :| 0 <= k < |names| && names[k] == props[i].name;
      assert !HasField([], ps[k].name);
    }
  }

  lemma LastInRange(props: seq<Prop>, i: int)
    ensures LastNamed(props, i) ==> 0 <= i < |props|
  {
  }

  lemma DeclaredAt(props: seq<Prop>, i: nat)
    requires i < |props|
    ensures Declares(props, props[i].name)
  {
  }

  lemma PartialRefs(p: Project, props: seq<Prop>, stack: nat)
    ensures Refs(PartialNode(p, props, stack)) == if stack == 0 then {} else InlinedNames(p, props, stack - 1)
  {
    hide Refs, Outline, InlinedNames, KeptRef;
    if stack == 0 {
      NoRefs(Anything);
    } else {
      forall name ensures name in Refs(PartialNode(p, props, stack)) <==> name in InlinedNames(p, props, stack - 1) {
        ObjectRefs(PartialNode(p, props, stack), name);
        OutlineRefs(p, props, stack - 1, name);
      }
    }
  }

  lemma UnionRefs(branches: seq<Node>)
    ensures Refs(UnionNode(branches)) == RefsOf(branches)
  {
    hide Refs;
    if |branches| == 0 {
      NoRefs(Anything);
      RefsUnfold(Anything);
    } else if |branches| == 1 {
      RefsOfCons(branches[0], []);
      RefsUnfold(Anything);
      assert branches == [branches[0]] + [];
    } else {
      BranchRefs(branches);
    }
  }

  lemma {:induction false} MemberRefs(p: Project, ts: seq<Ty>, stack: nat)
    requires AllPrintable(ts)
    ensures RefsOf(SemAll(p, ts, stack)) == NamesInAll(p, ts, stack)
    decreases ts, 0
  {
    hide Refs, RefsOf, Sem, NamesIn, Printable;
    RefsUnfold(Anything);
    if ts != [] {
      var rest := SemAll(p, ts[1..], stack);
      MemberRefs(p, ts[1..], stack);
      SchemaRefs(p, ts[0], stack);
      RefsOfCons(Sem(p, ts[0], stack), rest);
      if ts[0].Undef? {
        UndefRefs(p, stack);
        assert [] + rest == rest;
      }
    }
  }

  lemma UndefRefs(p: Project, stack: nat)
    ensures NamesIn(p, Undef, stack) == {}
  {
  }

  lemma {:induction false} SchemaRefs(p: Project, t: Ty, stack: nat)
    requires Printable(t)
    ensures Refs(Sem(p, t, stack)) == NamesIn(p, t, stack)
    decreases t, 1
  {
    hide Refs, RefsOf, InlinedNames, PartialNode, UnionNode, SimpleNode, EnumNode, RefNode, ArrayNode, RecordNode, IsLine;
    hide Readable, IsWord, CapitalWord, LiteralTexts, AllFieldsPrintable, AllPrintable, NamesInFields, SemFields, EMPTY_OBJECT;
    LeafRefs(p, t, stack);
    match t {
      case Simple(word) =>
      case Undef =>
      case Lits(values) =>
      case Name(name) => OneRef(name);
      case Member(enum, key) => OneRef(enum + "." + key); ConstantRefs(EnumValue(p, enum, key));
      case Arr(elem) => SchemaRefs(p, elem, stack); ArrayRefs(Sem(p, elem, stack));
      case Rec(value) => SchemaRefs(p, value, stack); RecordRefs(Sem(p, value, stack));
      case Partial(name) =>
        OneRef(PartialText(name));
        if name in p.interfaces {
          PartialRefs(p, p.interfaces[name], stack);
        }
      case Union(members) => MemberRefs(p, members, stack); UnionRefs(SemAll(p, members, stack));
      case Obj(fields) =>
        forall name ensures name in Refs(Sem(p, t, stack)) <==> name in NamesInFields(p, fields, stack) {
          EmptyObject(fields, name);
          FieldRefs(p, fields, EMPTY_OBJECT, stack, name);
          ObjectRefs(SemFields(p, fields, EMPTY_OBJECT, stack), name);
        }
    }
  }

  lemma EmptyObject(fields: seq<FieldTy>, name: string)
    ensures PlainObject(EMPTY_OBJECT) && NoRepeats(PropertyNames(EMPTY_OBJECT.properties))
    ensures !KeptRef(EMPTY_OBJECT.properties, fields, name)
  {
  }

  /** The definitions that the compiled schema of a printed type refers to are exactly the names in
      the type. */
  lemma CompiledReferences(p: Project, t: Ty, depth: nat, stack: nat, name: string)
    requires Printable(t) && Compile(p, Print(t), depth, stack).Ok?
    ensures (var node := Compile(p, Print(t), depth, stack).value;
             && Refs(node) == NamesIn(p, t, stack)
             && (Mentions(node, name) <==> name in NamesIn(p, t, stack)))
  {
    hide *;
    CompileUndoesPrint(p, t, depth, stack);
    SchemaRefs(p, t, stack);
    RefsExactly(Sem(p, t, stack), name);
  }
}
