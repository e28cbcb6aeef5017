/** The two loops that fill `properties` and `required`: over the fields of an inline object and
    over the properties of an interface. */
module Properties {
  import opened JsText
  import opened Schema
  import opened TypeText
  import opened TypeCompiler

  method InlineObjectToSchema(p: Project, text: string, stack: nat) returns (r: Result<Node>)
    ensures r == (InlineFieldLengths(text); CompileFields(p, InlineFields(text), EMPTY_OBJECT, stack, |text|))
  {
    hide Compile, InlineFields, SetProperty, TypeAdmitsUndefined, EMPTY_OBJECT;
    InlineFieldLengths(text);
    var fields := InlineFields(text);
    var schema := EMPTY_OBJECT;
    for i := 0 to |fields|
      invariant CompileFields(p, fields[i..], schema, stack, |text|) == CompileFields(p, fields, EMPTY_OBJECT, stack, |text|)
    {
      var f := fields[i];
      assert fields[i..][0] == f && fields[i..][1..] == fields[i + 1..];
      var one := Compile(p, f.text, 0, stack);
      if !one.Ok? {
        return one;
      }
      var properties := SetProperty(schema.properties, f.name, one.value);
      var required := schema.required;
      if !f.optional && !TypeAdmitsUndefined(f.text) {
        required := required + [f.name];
      }
      schema := schema.(properties := properties, required := required);
    }
    return Ok(schema);
  }

  method InterfaceToSchema(p: Project, props: seq<Prop>, stack: nat) returns (r: Result<Node>)
    ensures r == CompileProps(p, props, EMPTY_OBJECT, stack)
  {
    hide Compile, SetProperty, TypeAdmitsUndefined, EMPTY_OBJECT;
    var schema := EMPTY_OBJECT;
    for i := 0 to |props|
      invariant CompileProps(p, props[i..], schema, stack) == CompileProps(p, props, EMPTY_OBJECT, stack)
    {
      var q := props[i];
      assert props[i..][0] == q && props[i..][1..] == props[i + 1..];
      var one := Compile(p, q.text, 0, stack);
      if !one.Ok? {
        return one;
      }
      var properties := SetProperty(schema.properties, q.name, one.value);
      var required := schema.required;
      if !q.question && !TypeAdmitsUndefined(q.text) {
        if q.name !in required {
          required := required + [q.name];
        }
      }
      schema := schema.(properties := properties, required := required);
    }
    return Ok(schema);
  }

  // ---- what the loop over an interface leaves

  predicate Mandatory(q: Prop) {
    !q.question && !TypeAdmitsUndefined(q.text)
  }

  predicate Demands(props: seq<Prop>, name: string) {
    exists i :: 0 <= i < |props| && props[i].name == name && Mandatory(props[i])
  }

  predicate Declares(props: seq<Prop>, name: string) {
    exists i :: 0 <= i < |props| && props[i].name == name
  }

  function PropertyNames(ps: seq<Property>): (r: seq<string>)
    ensures |r| == |ps|
  {
    if ps == [] then [] else [ps[0].name] + PropertyNames(ps[1..])
  }

  predicate Describes(ps: seq<Property>, name: string, schema: Node) {
    exists i :: 0 <= i < |ps| && ps[i] == Property(name, schema)
  }

  lemma {:induction false} SetPropertyNames(ps: seq<Property>, name: string, schema: Node)
    ensures forall n :: n in PropertyNames(SetProperty(ps, name, schema)) <==> n in PropertyNames(ps) || n == name
    ensures NoRepeats(PropertyNames(ps)) ==> NoRepeats(PropertyNames(SetProperty(ps, name, schema)))
  {
    var out := SetProperty(ps, name, schema);
    if ps == [] {
      assert PropertyNames(out) == [name] && [name][1..] == [];
    } else {
      var tail := if ps[0].name == name then ps[1..] else SetProperty(ps[1..], name, schema);
      SetPropertyNames(ps[1..], name, schema);
      NamesCons(out[0], tail);
      NamesCons(ps[0], ps[1..]);
      assert out == [out[0]] + tail && ps == [ps[0]] + ps[1..];
    }
  }

  lemma NamesCons(first: Property, rest: seq<Property>)
    ensures PropertyNames([first] + rest) == [first.name] + PropertyNames(rest)
    ensures NoRepeats(PropertyNames([first] + rest)) <==> first.name !in PropertyNames(rest) && NoRepeats(PropertyNames(rest))
  {
    assert ([first] + rest)[1..] == rest;
    assert ([first.name] + PropertyNames(rest))[1..] == PropertyNames(rest);
  }

  lemma {:induction false} SetPropertyDescribes(ps: seq<Property>, name: string, schema: Node)
    ensures Describes(SetProperty(ps, name, schema), name, schema)
    ensures forall n, s :: n != name ==> (Describes(SetProperty(ps, name, schema), n, s) <==> Describes(ps, n, s))
  {
    hide Describes;
    NoneDescribed();
    if ps == [] {
      ConsDescribes(Property(name, schema), []);
      assert [Property(name, schema)] + [] == [Property(name, schema)];
    } else {
      SetPropertyDescribes(ps[1..], name, schema);
      ConsDescribes(ps[0], ps[1..]);
      ConsDescribes(Property(name, schema), ps[1..]);
      ConsDescribes(ps[0], SetProperty(ps[1..], name, schema));
      assert [ps[0]] + ps[1..] == ps;
    }
  }

  lemma NoneDescribed()
    ensures forall n, s :: !Describes([], n, s)
  {
  }

  lemma ConsDescribes(first: Property, rest: seq<Property>)
    ensures forall n, s :: Describes([first] + rest, n, s) <==> first == Property(n, s) || Describes(rest, n, s)
  {
    forall n, s ensures Describes([first] + rest, n, s) <==> first == Property(n, s) || Describes(rest, n, s) {
      var all := [first] + rest;
      assert all[0] == first;
      if Describes(rest, n, s) {
        var i :| 0 <= i < |rest| && rest[i] == Property(n, s);
        assert all[i + 1] == Property(n, s);
      }
      if Describes(all, n, s) {
        var i :| 0 <= i < |all| && all[i] == Property(n, s);
        assert i > 0 ==> rest[i - 1] == Property(n, s);
      }
    }
  }

  lemma DemandsStep(props: seq<Prop>, name: string)
    requires props != []
    ensures Demands(props, name) <==> (props[0].name == name && Mandatory(props[0])) || Demands(props[1..], name)
  {
    hide Mandatory;
    if Demands(props[1..], name) {
      var i :| 0 <= i < |props[1..]| && props[1..][i].name == name && Mandatory(props[1..][i]);
      assert props[i + 1] == props[1..][i];
    }
    if Demands(props, name) {
      var i :| 0 <= i < |props| && props[i].name == name && Mandatory(props[i]);
      assert i > 0 ==> props[1..][i - 1] == props[i];
    }
  }

  /** Some property with this name, and no later one. */
  predicate LastNamed(props: seq<Prop>, i: int) {
    0 <= i < |props| && forall j :: i < j < |props| ==> props[j].name != props[i].name
  }

  lemma {:induction false} PropsKeep(p: Project, props: seq<Prop>, sofar: Node, stack: nat)
    requires NoRepeats(PropertyNames(sofar.properties)) && NoRepeats(sofar.required)
    requires CompileProps(p, props, sofar, stack).Ok?
    ensures (var node := CompileProps(p, props, sofar, stack).value;
             && NoRepeats(PropertyNames(node.properties)) && NoRepeats(node.required)
             && (forall n :: n in node.required <==> n in sofar.required || Demands(props, n))
             && (forall n :: n in PropertyNames(node.properties) <==> n in PropertyNames(sofar.properties) || Declares(props, n))
             && (forall n, s :: (forall i :: 0 <= i < |props| ==> props[i].name != n) ==>
                   (Describes(node.properties, n, s) <==> Describes(sofar.properties, n, s)))
             && (forall i :: LastNamed(props, i) ==>
                   Compile(p, props[i].text, 0, stack).Ok?
                   && Describes(node.properties, props[i].name, Compile(p, props[i].text, 0, stack).value)))
    decreases |props|
  {
    hide Compile, SetProperty, Mandatory, NoRepeats, Describes, PropertyNames, Demands;
    var node := CompileProps(p, props, sofar, stack).value;
    if props == [] {
      NoDemands();
    } else {
      var q := props[0];
      var schema := Compile(p, q.text, 0, stack).value;
      var next := PropStep(p, props, sofar, stack);
      SetPropertyNames(sofar.properties, q.name, schema);
      SetPropertyDescribes(sofar.properties, q.name, schema);
      PropsKeep(p, props[1..], next, stack);
      forall n ensures n in node.required <==> n in sofar.required || Demands(props, n) {
        DemandsStep(props, n);
      }
      forall n, s | (forall i :: 0 <= i < |props| ==> props[i].name != n)
        ensures Describes(node.properties, n, s) <==> Describes(sofar.properties, n, s)
      {
        assert props[0].name != n;
        forall i | 0 <= i < |props[1..]| ensures props[1..][i].name != n {
          assert props[1..][i] == props[i + 1];
        }
      }
      forall i | LastNamed(props, i)
        ensures Compile(p, props[i].text, 0, stack).Ok?
        ensures Describes(node.properties, props[i].name, Compile(p, props[i].text, 0, stack).value)
      {
        if i == 0 {
          forall j | 0 <= j < |props[1..]| ensures props[1..][j].name != q.name {
            assert props[1..][j] == props[j + 1];
          }
        } else {
          LastLater(props, i);
        }
      }
    }
  }

  lemma NoDemands()
    ensures forall n :: !Demands([], n)
  {
  }

  lemma LastLater(props: seq<Prop>, i: int)
    requires LastNamed(props, i) && i > 0
    ensures LastNamed(props[1..], i - 1) && props[1..][i - 1] == props[i]
  {
    forall j | i - 1 < j < |props[1..]| ensures props[1..][j].name != props[i].name {
      assert props[1..][j] == props[j + 1];
    }
  }

  /** One property: what is passed on. */
  lemma PropStep(p: Project, props: seq<Prop>, sofar: Node, stack: nat) returns (next: Node)
    requires props != [] && CompileProps(p, props, sofar, stack).Ok? && NoRepeats(sofar.required)
    ensures Compile(p, props[0].text, 0, stack).Ok?
    ensures CompileProps(p, props[1..], next, stack) == CompileProps(p, props, sofar, stack)
    ensures next.properties == SetProperty(sofar.properties, props[0].name, Compile(p, props[0].text, 0, stack).value)
    ensures NoRepeats(next.required)
    ensures forall n :: n in next.required <==> n in sofar.required || (n == props[0].name && Mandatory(props[0]))
  {
    hide Compile, SetProperty, TypeAdmitsUndefined;
    if props[0].name !in sofar.required {
      NoRepeatsSnoc(sofar.required, props[0].name);
    }
    var q := props[0];
    var schema := Compile(p, q.text, 0, stack).value;
    next := sofar.(properties := SetProperty(sofar.properties, q.name, schema),
                   required := if !q.question && !TypeAdmitsUndefined(q.text) && q.name !in sofar.required
                               then sofar.required + [q.name] else sofar.required);
  }

  /** The schema of an interface requires exactly the names declared without `?` and without a
      top-level `undefined`, each once, and describes exactly the declared names, each once and
      as declared last. */
  lemma InterfaceSchema(p: Project, props: seq<Prop>, stack: nat)
    requires CompileProps(p, props, EMPTY_OBJECT, stack).Ok?
    ensures (var node := CompileProps(p, props, EMPTY_OBJECT, stack).value;
             && NoRepeats(PropertyNames(node.properties)) && NoRepeats(node.required)
             && (forall n :: n in node.required <==> Demands(props, n))
             && (forall n :: n in PropertyNames(node.properties) <==> Declares(props, n))
             && (forall i :: LastNamed(props, i) ==>
                   Compile(p, props[i].text, 0, stack).Ok?
                   && Describes(node.properties, props[i].name, Compile(p, props[i].text, 0, stack).value)))
  {
    hide Compile, Mandatory, Demands, Describes;
    PropsKeep(p, props, EMPTY_OBJECT, stack);
  }

  // ---- the same in order

  /** The declared names, in the order of their first declarations. */
  function DeclaredNames(props: seq<Prop>): seq<string> {
    if props == [] then []
    else
      var front, last := DeclaredNames(props[..|props| - 1]), props[|props| - 1];
      if last.name in front then front else front + [last.name]
  }

  /** The type of the last property with this name. */
  function LastText(props: seq<Prop>, name: string): string {
    if props == [] then ""
    else if props[|props| - 1].name == name then props[|props| - 1].text
    else LastText(props[..|props| - 1], name)
  }

  function NodeOf(p: Project, text: string, stack: nat): Node {
    if Compile(p, text, 0, stack).Ok? then Compile(p, text, 0, stack).value else Anything
  }

  /** What an interface describes: every declared name once, as declared last. */
  function Outline(p: Project, props: seq<Prop>, stack: nat): seq<Property> {
    var names := DeclaredNames(props);
    seq(|names|, i requires 0 <= i < |names| => Property(names[i], NodeOf(p, LastText(props, names[i]), stack)))
  }

  predicate AllCompile(p: Project, props: seq<Prop>, stack: nat) {
    forall i :: 0 <= i < |props| ==> Compile(p, props[i].text, 0, stack).Ok?
  }

  lemma {:induction false} DeclaredNamesMean(props: seq<Prop>)
    ensures NoRepeats(DeclaredNames(props))
    ensures forall n :: n in DeclaredNames(props) <==> Declares(props, n)
  {
    if props == [] {
    } else {
      var front, last := props[..|props| - 1], props[|props| - 1];
      DeclaredNamesMean(front);
      if last.name !in DeclaredNames(front) {
        NoRepeatsSnoc(DeclaredNames(front), last.name);
      }
      forall n ensures Declares(props, n) <==> Declares(front, n) || n == last.name {
        DeclaresSnoc(front, last, n);
        assert front + [last] == props;
      }
    }
  }

  lemma DeclaresSnoc(front: seq<Prop>, last: Prop, name: string)
    ensures Declares(front + [last], name) <==> Declares(front, name) || name == last.name
  {
    var props := front + [last];
    if Declares(front, name) {
      var i :| 0 <= i < |front| && front[i].name == name;
      assert props[i].name == name;
    }
    assert props[|front|] == last;
  }

  lemma {:induction false} SetNewProperty(ps: seq<Property>, name: string, schema: Node)
    requires forall i :: 0 <= i < |ps| ==> ps[i].name != name
    ensures SetProperty(ps, name, schema) == ps + [Property(name, schema)]
  {
    if ps != [] {
      SetNewProperty(ps[1..], name, schema);
    }
  }

  lemma {:induction false} SetKnownProperty(ps: seq<Property>, name: string, schema: Node, k: nat)
    requires k < |ps| && ps[k].name == name && forall i :: 0 <= i < k ==> ps[i].name != name
    ensures SetProperty(ps, name, schema) == ps[k := Property(name, schema)]
  {
    if k > 0 {
      SetKnownProperty(ps[1..], name, schema, k - 1);
    }
  }

  lemma {:induction false} NoRepeatsAt(names: seq<string>, i: nat, j: nat)
    requires NoRepeats(names) && i < j < |names|
    ensures names[i] != names[j]
  {
    if i == 0 {
      assert names[1..][j - 1] == names[j];
    } else {
      NoRepeatsAt(names[1..], i - 1, j - 1);
    }
  }

  lemma OutlineSnoc(p: Project, front: seq<Prop>, q: Prop, stack: nat)
    ensures Outline(p, front + [q], stack) == SetProperty(Outline(p, front, stack), q.name, NodeOf(p, q.text, stack))
  {
    hide NodeOf, SetProperty, DeclaredNames;
    var names, before := DeclaredNames(front), Outline(p, front, stack);
    DeclaredNamesMean(front);
    NamesSnoc(front, q);
    if k :| 0 <= k < |names| && names[k] == q.name {
      forall i | 0 <= i < |names| && i != k ensures names[i] != q.name {
        NoRepeatsAt(names, if i < k then i else k, if i < k then k else i);
      }
      SetKnownProperty(before, q.name, NodeOf(p, q.text, stack), k);
    } else {
      SetNewProperty(before, q.name, NodeOf(p, q.text, stack));
    }
  }

  lemma NamesSnoc(front: seq<Prop>, q: Prop)
    ensures DeclaredNames(front + [q]) == if q.name in DeclaredNames(front) then DeclaredNames(front) else DeclaredNames(front) + [q.name]
    ensures forall n :: LastText(front + [q], n) == if q.name == n then q.text else LastText(front, n)
  {
    assert (front + [q])[..|front|] == front;
  }

  lemma {:induction false} PropsSnoc(p: Project, props: seq<Prop>, q: Prop, sofar: Node, stack: nat)
    ensures (var before := CompileProps(p, props, sofar, stack);
             CompileProps(p, props + [q], sofar, stack) == if before.Ok? then CompileProps(p, [q], before.value, stack) else before)
    decreases |props|
  {
    hide Compile, SetProperty, TypeAdmitsUndefined;
    if props == [] {
      assert props + [q] == [q];
    } else {
      assert (props + [q])[0] == props[0] && (props + [q])[1..] == props[1..] + [q];
      var first := Compile(p, props[0].text, 0, stack);
      if first.Ok? {
        PropsSnoc(p, props[1..], q, PropNext(sofar, props[0], first.value), stack);
      }
    }
  }

  /** What the schema is after one property. */
  function PropNext(sofar: Node, q: Prop, schema: Node): Node {
    sofar.(properties := SetProperty(sofar.properties, q.name, schema),
           required := if !q.question && !TypeAdmitsUndefined(q.text) && q.name !in sofar.required
                       then sofar.required + [q.name] else sofar.required)
  }

  lemma OneProp(p: Project, q: Prop, sofar: Node, stack: nat)
    ensures (var schema := Compile(p, q.text, 0, stack);
             CompileProps(p, [q], sofar, stack) == if schema.Ok? then Ok(PropNext(sofar, q, schema.value)) else schema)
  {
    hide Compile, SetProperty, TypeAdmitsUndefined;
    assert [q][1..] == [];
  }

  /** An interface compiles exactly when all its types do, and then to its outline. */
  lemma {:induction false} PropsOutline(p: Project, props: seq<Prop>, stack: nat)
    ensures CompileProps(p, props, EMPTY_OBJECT, stack).Ok? <==> AllCompile(p, props, stack)
    ensures AllCompile(p, props, stack) ==>
              (var node := CompileProps(p, props, EMPTY_OBJECT, stack).value;
               node == EMPTY_OBJECT.(properties := Outline(p, props, stack), required := node.required))
    decreases |props|
  {
    hide Compile, SetProperty, TypeAdmitsUndefined, Outline, CompileProps;
    if props == [] {
      NoProps(p, stack);
    } else {
      var front, last := props[..|props| - 1], props[|props| - 1];
      assert props == front + [last];
      PropsOutline(p, front, stack);
      PropsSnoc(p, front, last, EMPTY_OBJECT, stack);
      OutlineSnoc(p, front, last, stack);
      AllSnoc(p, front, last, stack);
      if AllCompile(p, front, stack) {
        OneProp(p, last, CompileProps(p, front, EMPTY_OBJECT, stack).value, stack);
      }
    }
  }

  lemma AllSnoc(p: Project, front: seq<Prop>, last: Prop, stack: nat)
    ensures AllCompile(p, front + [last], stack) <==> AllCompile(p, front, stack) && Compile(p, last.text, 0, stack).Ok?
  {
    hide Compile;
    var props := front + [last];
    assert props[|front|] == last;
    assert forall i :: 0 <= i < |front| ==> props[i] == front[i];
  }

  lemma NoProps(p: Project, stack: nat)
    ensures CompileProps(p, [], EMPTY_OBJECT, stack) == Ok(EMPTY_OBJECT)
    ensures Outline(p, [], stack) == [] && EMPTY_OBJECT.properties == [] && AllCompile(p, [], stack)
  {
    hide Compile;
  }
}
