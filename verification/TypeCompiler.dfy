/** `typeTextToSchema`, `inlineObjectToSchema` and `interfaceToSchema`: one look at a text
    (`Classify`) and the recursion over the texts inside it (`Compile`). */
module TypeCompiler {
  import opened JsText
  import opened Schema
  import opened TypeText

  /** A property of an interface, inherited ones included. */
  datatype Prop = Prop(name: string, question: bool, text: string)

  /** The declarations that a type text can name. */
  datatype Project = Project(interfaces: map<string, seq<Prop>>, enums: map<string, map<string, string>>)

  /** What one look at a text finds: a finished node, or the texts it is made of. */
  datatype Shape =
    | Leaf(node: Node)
    | ArrayOf(text: string)
    | RecordOf(text: string)
    | Same(text: string)
    | OneOf(texts: seq<string>)
    | PartialOf(name: string)
    | Inline(fields: seq<Field>)

  function TypeNode(kind: string): Node { Anything.(kind := kind) }

  function EnumNode(values: seq<string>): Node { Anything.(kind := "string", enumValues := values) }

  function RefNode(name: string): Node { Anything.(ref := Some(DEFS_PREFIX + name)) }

  function ArrayNode(items: Node): Node { Anything.(kind := "array", items := Some(items)) }

  function RecordNode(value: Node): Node { Anything.(kind := "object", additional := Some(value)) }

  function OneOfNode(branches: seq<Node>): Node { Anything.(oneOf := branches) }

  const SIMPLE: set<string> := {"string", "number", "boolean", "null", "unknown", "object"}

  function SimpleNode(word: string): Node {
    if word == "unknown" then Anything else TypeNode(word)
  }

  function EnumValue(p: Project, e: string, m: string): Option<string> {
    if e in p.enums && m in p.enums[e] then Some(p.enums[e][m]) else None
  }

  /** The branches after arrays, records, `| undefined` and known partials. */
  function ClassifyRest(p: Project, cleaned: string): Shape {
    var member := EnumMember(cleaned);
    if member.Some? && EnumValue(p, member.value.0, member.value.1).Some? then
      Leaf(Anything.(constant := EnumValue(p, member.value.0, member.value.1)))
    else if |cleaned| >= 1 && cleaned[0] == '{' && cleaned[|cleaned| - 1] == '}' then Inline(InlineFields(cleaned))
    else if cleaned != "" && IsCapital(cleaned[0]) then Leaf(RefNode(cleaned))
    else Leaf(Anything)
  }

  function ClassifyUnion(p: Project, cleaned: string): Shape {
    if '|' in cleaned && cleaned[0] != '\'' then
      var parts := LiveParts(SplitUnion(cleaned));
      if |parts| > 1 then OneOf(parts)
      else if |parts| == 1 && parts[0] != cleaned then Same(parts[0])
      else ClassifyRest(p, cleaned)
    else ClassifyRest(p, cleaned)
  }

  function ClassifyCleaned(p: Project, cleaned: string): Shape {
    if LiteralValues(cleaned).Some? then Leaf(EnumNode(LiteralValues(cleaned).value))
    else if cleaned in SIMPLE then Leaf(SimpleNode(cleaned))
    else if ArrayElement(cleaned).Some? then ArrayOf(ArrayElement(cleaned).value)
    else if RecordValue(cleaned).Some? then RecordOf(RecordValue(cleaned).value)
    else if BeforeUndefined(cleaned).Some? then Same(BeforeUndefined(cleaned).value)
    else if PartialName(cleaned).Some? && PartialName(cleaned).value in p.interfaces then PartialOf(PartialName(cleaned).value)
    else ClassifyUnion(p, cleaned)
  }

  function Classify(p: Project, text: string): Shape {
    ClassifyCleaned(p, Cleaned(text))
  }

  /** Every text inside is strictly shorter than the text that was looked at. */
  predicate Smaller(shape: Shape, bound: nat) {
    match shape
    case ArrayOf(t) => |t| < bound
    case RecordOf(t) => |t| < bound
    case Same(t) => |t| < bound
    case OneOf(ts) => forall i :: 0 <= i < |ts| ==> |ts[i]| < bound
    case Inline(fs) => forall i :: 0 <= i < |fs| ==> |fs[i].text| < bound
    case _ => true
  }

  /** A part as long as the whole text is the whole text. */
  lemma {:induction false} FullPart(s: string, depth: int, current: string)
    ensures forall i :: 0 <= i < |SplitFrom(s, depth, current)| && |SplitFrom(s, depth, current)[i]| == |current| + |s| ==>
              SplitFrom(s, depth, current)[i] == current + s
    decreases |s|
  {
    hide Trim;
    TrimShrinks(current);
    if s == "" {
      TrimFull(current);
      assert current + s == current;
    } else if Bracket(s[0]) == 0 && s[0] == '|' && depth == 0 {
      PartLengths(s[1..], 0, "");
    } else {
      FullPart(s[1..], depth + Bracket(s[0]), current + [s[0]]);
      assert current + [s[0]] + s[1..] == current + s;
    }
  }

  lemma TrimFull(s: string)
    ensures |Trim(s)| == |s| ==> Trim(s) == s
  {
  }

  lemma ClassifyUnionShrinks(p: Project, cleaned: string)
    ensures Smaller(ClassifyUnion(p, cleaned), |cleaned|)
  {
    hide SplitFrom, InlineFields, EnumMember, LiveParts;
    InlineFieldLengths(cleaned);
    var parts := SplitUnion(cleaned);
    PartLengths(cleaned, 0, "");
    FullPart(cleaned, 0, "");
    LivePartsAreParts(parts, |cleaned|);
    var live := LiveParts(parts);
    if |live| > 1 {
      forall i | 0 <= i < |live| ensures |live[i]| < |cleaned| {
        var k :| 0 <= k < |parts| && parts[k] == live[i];
      }
    } else if |live| == 1 {
      var k :| 0 <= k < |parts| && parts[k] == live[0];
      assert "" + cleaned == cleaned;
    }
  }

  lemma ClassifyShrinks(p: Project, text: string)
    ensures Smaller(Classify(p, text), |text|)
  {
    hide LiteralValues, ArrayElement, RecordValue, BeforeUndefined, PartialName, ClassifyUnion, Cleaned, SimpleNode;
    ClassifyUnionShrinks(p, Cleaned(text));
  }

  // ---- compilation

  /** A schema, or the error thrown: nesting beyond the limit, or a call stack used up by
      interfaces that reach themselves through `Partial<>`. */
  datatype Result<+T> = Ok(value: T) | TooDeep(text: string) | StackOverflow

  const DEPTH_LIMIT: nat := 100

  /** Assigning a property: a known name keeps its position. */
  function SetProperty(ps: seq<Property>, name: string, schema: Node): seq<Property> {
    if ps == [] then [Property(name, schema)]
    else if ps[0].name == name then [Property(name, schema)] + ps[1..]
    else [ps[0]] + SetProperty(ps[1..], name, schema)
  }

  const EMPTY_OBJECT: Node := TypeNode("object")

  /** `stack` bounds how many interfaces may be expanded inside each other. */
  function Compile(p: Project, text: string, depth: nat, stack: nat): Result<Node>
    decreases 2 * stack, |text|, 1, 0
  {
    if depth > DEPTH_LIMIT then TooDeep(text)
    else
      hide Classify, CompileAll, CompileFields, CompileProps, Compile;
      ClassifyShrinks(p, text);
      match Classify(p, text)
      case Leaf(node) => Ok(node)
      case Same(t) => Compile(p, t, depth + 1, stack)
      case ArrayOf(t) =>
        (match Compile(p, t, depth + 1, stack)
         case Ok(items) => Ok(ArrayNode(items))
         case error => error)
      case RecordOf(t) =>
        (match Compile(p, t, depth + 1, stack)
         case Ok(value) => Ok(RecordNode(value))
         case error => error)
      case OneOf(ts) =>
        (match CompileAll(p, ts, depth + 1, stack, |text|)
         case Ok(branches) => Ok(OneOfNode(branches))
         case TooDeep(t) => TooDeep(t)
         case StackOverflow => StackOverflow)
      case PartialOf(name) =>
        if stack == 0 || name !in p.interfaces then StackOverflow
        else
          (match CompileProps(p, p.interfaces[name], EMPTY_OBJECT, stack - 1)
           case Ok(whole) => Ok(whole.(required := []))
           case error => error)
      case Inline(fs) => CompileFields(p, fs, EMPTY_OBJECT, stack, |text|)
  }

  function CompileAll(p: Project, texts: seq<string>, depth: nat, stack: nat, ghost bound: nat): Result<seq<Node>>
    requires forall i :: 0 <= i < |texts| ==> |texts[i]| < bound
    decreases 2 * stack, bound, 0, |texts|
  {
    if texts == [] then Ok([])
    else
      match Compile(p, texts[0], depth, stack)
      case TooDeep(t) => TooDeep(t)
      case StackOverflow => StackOverflow
      case Ok(first) =>
        match CompileAll(p, texts[1..], depth, stack, bound)
        case Ok(rest) => Ok([first] + rest)
        case error => error
  }

  /** The fields of an inline object; the nesting depth starts again at 0. */
  function CompileFields(p: Project, fields: seq<Field>, sofar: Node, stack: nat, ghost bound: nat): Result<Node>
    requires forall i :: 0 <= i < |fields| ==> |fields[i].text| < bound
    decreases 2 * stack, bound, 0, |fields|
  {
    if fields == [] then Ok(sofar)
    else
      var f := fields[0];
      match Compile(p, f.text, 0, stack)
      case Ok(schema) =>
        var next := sofar.(properties := SetProperty(sofar.properties, f.name, schema),
                            required := if !f.optional && !TypeAdmitsUndefined(f.text)
                                        then sofar.required + [f.name] else sofar.required);
        CompileFields(p, fields[1..], next, stack, bound)
      case error => error
  }

  /** The properties of an interface; the nesting depth starts again at 0. */
  function CompileProps(p: Project, props: seq<Prop>, sofar: Node, stack: nat): Result<Node>
    decreases 2 * stack + 1, 0, 0, |props|
  {
    if props == [] then Ok(sofar)
    else
      var q := props[0];
      match Compile(p, q.text, 0, stack)
      case Ok(schema) =>
        var next := sofar.(properties := SetProperty(sofar.properties, q.name, schema),
                            required := if !q.question && !TypeAdmitsUndefined(q.text) && q.name !in sofar.required
                                        then sofar.required + [q.name] else sofar.required);
        CompileProps(p, props[1..], next, stack)
      case error => error
  }
}
