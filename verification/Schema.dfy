/** JSON Schema nodes, and the references inside them. */
module Schema {
  import opened JsText

  datatype Property = Property(name: string, schema: Node)

  /** A schema node.  An absent list is an empty one and an absent `type` the empty string. */
  datatype Node = Node(
    kind: string,
    ref: Option<string>,
    enumValues: seq<string>,
    constant: Option<string>,
    items: Option<Node>,
    contains: Option<Node>,
    additional: Option<Node>,
    properties: seq<Property>,
    required: seq<string>,
    defs: seq<Property>,
    not: Option<Node>,
    oneOf: seq<Node>,
    allOf: seq<Node>,
    anyOf: seq<Node>)

  /** The schema `{}`, which matches every value. */
  const Anything: Node :=
    Node("", None, [], None, None, None, None, [], [], [], None, [], [], [])

  const DEFS_PREFIX: string := "#/$defs/"

  predicate IsLineEnd(c: char) {
    c == '\n' || c == '\r' || c == '\U{2028}' || c == '\U{2029}'
  }

  /** What the regular expression `.+` matches as a whole. */
  predicate IsLine(s: string) {
    s != "" && forall i :: 0 <= i < |s| ==> !IsLineEnd(s[i])
  }

  /** The name a `$ref` points to, when it has the form `#/$defs/<name>`. */
  function RefTarget(ref: string): Option<string> {
    if DEFS_PREFIX <= ref && IsLine(ref[|DEFS_PREFIX|..]) then Some(ref[|DEFS_PREFIX|..]) else None
  }

  function OptionSeq(n: Option<Node>): seq<Node> {
    if n.Some? then [n.value] else []
  }

  function Schemas(ps: seq<Property>): seq<Node> {
    seq(|ps|, i requires 0 <= i < |ps| => ps[i].schema)
  }

  /** Every node directly below `n`. */
  function Children(n: Node): seq<Node> {
    [] + OptionSeq(n.items) + OptionSeq(n.contains) + OptionSeq(n.additional) + Schemas(n.properties)
    + Schemas(n.defs) + OptionSeq(n.not) + n.oneOf + n.allOf + n.anyOf
  }

  predicate HasSchema(ps: seq<Property>, c: Node) {
    exists i :: 0 <= i < |ps| && ps[i].schema == c
  }

  /** `c` stands directly below `n`. */
  predicate Under(n: Node, c: Node) {
    || n.items == Some(c) || n.contains == Some(c) || n.additional == Some(c) || n.not == Some(c)
    || HasSchema(n.properties, c) || HasSchema(n.defs, c)
    || c in n.oneOf || c in n.allOf || c in n.anyOf
  }

  /** `trail` leads from `n` down to a node whose `$ref` points to `name`. */
  ghost predicate RefTrail(n: Node, trail: seq<Node>, name: string) {
    if trail == [] then n.ref == Some("#/$defs/" + name) && IsLine(name)
    else Under(n, trail[0]) && RefTrail(trail[0], trail[1..], name)
  }

  /** A reference to `name` occurs somewhere in the node. */
  ghost predicate Mentions(n: Node, name: string) {
    exists trail :: RefTrail(n, trail, name)
  }

  // ---- collecting references

  function OwnRef(n: Node): set<string> {
    if n.ref.Some? && RefTarget(n.ref.value).Some? then {RefTarget(n.ref.value).value} else {}
  }

  lemma ChildrenSmaller(n: Node)
    ensures forall c :: c in Children(n) <==> Under(n, c)
    ensures forall c :: Under(n, c) ==> c < n
  {
    forall c ensures c in Schemas(n.properties) <==> HasSchema(n.properties, c) {
      InSchemas(n.properties, c);
    }
    forall c ensures c in Schemas(n.defs) <==> HasSchema(n.defs, c) {
      InSchemas(n.defs, c);
    }
    hide HasSchema, Schemas;
    forall c ensures c in Children(n) <==> Under(n, c) {
      assert c in Children(n) <==>
             || c in OptionSeq(n.items) || c in OptionSeq(n.contains) || c in OptionSeq(n.additional)
             || c in Schemas(n.properties) || c in Schemas(n.defs) || c in OptionSeq(n.not)
             || c in n.oneOf || c in n.allOf || c in n.anyOf;
    }
    forall c | HasSchema(n.properties, c) || HasSchema(n.defs, c) ensures c < n {
      SchemaSmaller(n, c);
    }
  }

  lemma InSchemas(ps: seq<Property>, c: Node)
    ensures c in Schemas(ps) <==> HasSchema(ps, c)
  {
    if HasSchema(ps, c) {
      var i :| 0 <= i < |ps| && ps[i].schema == c;
      assert Schemas(ps)[i] == c;
    }
  }

  lemma SchemaSmaller(n: Node, c: Node)
    requires HasSchema(n.properties, c) || HasSchema(n.defs, c)
    ensures c < n
  {
    if i :| 0 <= i < |n.properties| && n.properties[i].schema == c {
      assert n.properties[i] < n;
    } else {
      var i :| 0 <= i < |n.defs| && n.defs[i].schema == c;
      assert n.defs[i] < n;
    }
  }

  lemma RefTargetMeans(ref: string, name: string)
    ensures RefTarget(ref) == Some(name) <==> ref == "#/$defs/" + name && IsLine(name)
  {
    assert DEFS_PREFIX <= ref ==> ref == DEFS_PREFIX + ref[|DEFS_PREFIX|..];
    assert ref == DEFS_PREFIX + name ==> ref[|DEFS_PREFIX|..] == name;
    hide IsLine;
  }

  function Refs(n: Node): set<string> {
    ChildrenSmaller(n);
    OwnRef(n) + set c, name | c in Children(n) && name in Refs(c) :: name
  }

  function RefsOf(ns: seq<Node>): set<string> {
    set c, name | c in ns && name in Refs(c) :: name
  }

  lemma RefsUnfold(n: Node)
    ensures Refs(n) == OwnRef(n) + RefsOf(Children(n))
    ensures RefsOf([]) == {}
  {
  }

  lemma RefsOfOneMore(own: set<string>, ns: seq<Node>, n: Node)
    ensures own + RefsOf(ns) + Refs(n) == own + RefsOf(ns + [n])
  {
    assert n in ns + [n];
    forall name | name in RefsOf(ns) ensures name in RefsOf(ns + [n]) {
      var c :| c in ns && name in Refs(c);
      assert c in ns + [n];
    }
  }

  lemma {:induction false} TrailIsCollected(n: Node, trail: seq<Node>, name: string)
    requires RefTrail(n, trail, name)
    ensures name in Refs(n)
    decreases |trail|
  {
    ChildrenSmaller(n);
    hide Under, IsLine;
    if trail != [] {
      TrailIsCollected(trail[0], trail[1..], name);
    } else {
      RefTargetMeans(n.ref.value, name);
    }
  }

  lemma {:induction false} CollectedHasTrail(n: Node, name: string) returns (trail: seq<Node>)
    requires name in Refs(n)
    ensures RefTrail(n, trail, name)
    decreases n
  {
    ChildrenSmaller(n);
    hide Under, Children;
    if name in OwnRef(n) {
      RefTargetMeans(n.ref.value, name);
      trail := [];
    } else {
      var c :| c in Children(n) && name in Refs(c);
      var rest := CollectedHasTrail(c, name);
      trail := [c] + rest;
      assert trail[1..] == rest;
    }
  }

  /** The collected set is the set of names referred to anywhere in the node. */
  lemma RefsExactly(n: Node, name: string)
    ensures name in Refs(n) <==> Mentions(n, name)
  {
    if name in Refs(n) {
      var trail := CollectedHasTrail(n, name);
    }
    if Mentions(n, name) {
      var trail :| RefTrail(n, trail, name);
      TrailIsCollected(n, trail, name);
    }
  }

  /** The accumulator that the recursive walk fills in place. */
  class NameSet {
    var names: set<string>

    constructor ()
      ensures names == {}
    {
      names := {};
    }
  }

  method CollectRefTargets(node: Node, acc: NameSet)
    modifies acc
    ensures acc.names == old(acc.names) + Refs(node)
    decreases node, 1
  {
    hide Refs, RefsOf;
    RefsUnfold(node);
    if node.ref.Some? {
      var target := RefTarget(node.ref.value);
      if target.Some? {
        acc.names := acc.names + {target.value};
      }
    }
    ghost var own := acc.names;
    ghost var seen := CollectFrom(node, OptionSeq(node.items), acc, own, []);
    seen := CollectFrom(node, OptionSeq(node.contains), acc, own, seen);
    seen := CollectFrom(node, OptionSeq(node.additional), acc, own, seen);
    seen := CollectFrom(node, Schemas(node.properties), acc, own, seen);
    seen := CollectFrom(node, Schemas(node.defs), acc, own, seen);
    seen := CollectFrom(node, OptionSeq(node.not), acc, own, seen);
    seen := CollectFrom(node, node.oneOf, acc, own, seen);
    seen := CollectFrom(node, node.allOf, acc, own, seen);
    seen := CollectFrom(node, node.anyOf, acc, own, seen);
  }

  /** The walk over one list of nodes below `parent`; `seen` are the children walked before. */
  method CollectFrom(ghost parent: Node, ns: seq<Node>, acc: NameSet, ghost own: set<string>, ghost seen: seq<Node>)
    returns (ghost now: seq<Node>)
    requires forall i :: 0 <= i < |ns| ==> ns[i] < parent
    requires acc.names == own + RefsOf(seen)
    modifies acc
    ensures now == seen + ns && acc.names == own + RefsOf(now)
    decreases parent, 0
  {
    hide *;
    now := seen;
    for i := 0 to |ns|
      invariant now == seen + ns[..i]
      invariant acc.names == own + RefsOf(now)
    {
      RefsOfOneMore(own, now, ns[i]);
      assert seen + ns[..i + 1] == now + [ns[i]];
      CollectRefTargets(ns[i], acc);
      now := now + [ns[i]];
    }
  }
}
