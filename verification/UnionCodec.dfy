/** The discriminated unions that the Kotlin and Go generators emit, for any configuration. */
module UnionCodec {
  import opened JsText
  import opened Wire
  import opened TypeText
  import opened Flattening
  import opened UnionOpenness

  datatype Variant = Variant(caseName: string, structName: string, wire: string)

  /** What is configured for a union: `fallback` says whether it is open when its discriminants name
      no enum, and `inject` that encoding writes the discriminant of the case over the payload's own. */
  datatype Config = Config(field: string, variants: seq<Variant>, fallback: bool, enumName: Option<string>, inject: bool)

  /** The union that is emitted. */
  datatype Union = Union(field: string, variants: seq<Variant>, open: bool, inject: bool)

  function Structs(variants: seq<Variant>): (r: seq<string>)
    ensures |r| == |variants| && forall i :: 0 <= i < |r| ==> r[i] == variants[i].structName
  {
    if variants == [] then [] else [variants[0].structName] + Structs(variants[1..])
  }

  /** Code is emitted once the generator knows whether the union is open; otherwise it throws. */
  function Emit(g: Graph<string>, ghost rank: map<string, nat>, enums: Enums, cfg: Config): Option<Union>
    requires Acyclic(g, rank)
  {
    match AllowsUnknown(g, rank, enums, cfg.field, Structs(cfg.variants), cfg.fallback, cfg.enumName)
    case Open(open) => Some(Union(cfg.field, cfg.variants, open, cfg.inject))
    case _ => None
  }

  /** A struct in memory: the discriminant, when it has a field for it, and everything else. */
  datatype Payload<+R> = Payload(kind: Option<string>, rest: R)

  /** How the runtime reads and writes the structs: which of them have a field for the discriminant,
      what that field makes of the member read (or of none), and the other members. */
  datatype Codec<!R> = Codec(
    stores: string -> bool,
    kinds: (string, Option<WireValue>) -> Option<string>,
    dec: (string, map<string, WireValue>) -> Option<R>,
    enc: (string, R) -> map<string, WireValue>)

  datatype Value<+R> = Case(structName: string, payload: Payload<R>) | Unknown(raw: WireValue) | NoValue

  datatype Error = NotAnObject | BadDiscriminant | MissingDiscriminant | UnknownDiscriminant(wire: string) | BadPayload

  datatype Attempt<+T> = Ok(value: T) | Fail(error: Error)

  function MemberOf(json: WireValue, field: string): Option<WireValue> {
    if json.Obj? && field in json.fields then Some(json.fields[field]) else None
  }

  function ReadStruct<R>(codec: Codec<R>, field: string, structName: string, json: WireValue): Option<Payload<R>> {
    if !json.Obj? then None
    else
      match codec.dec(structName, json.fields - {field})
      case None => None
      case Some(rest) =>
        if !codec.stores(structName) then Some(Payload(None, rest))
        else
          match codec.kinds(structName, MemberOf(json, field))
          case None => None
          case Some(kind) => Some(Payload(Some(kind), rest))
  }

  function WriteStruct<R>(codec: Codec<R>, field: string, structName: string, p: Payload<R>): WireValue {
    var rest := codec.enc(structName, p.rest);
    Obj(if p.kind.Some? then rest[field := Str(p.kind.value)] else rest)
  }

  // ---- looking variants up

  /** The variant whose wire value matches; of several, the first. */
  function Lookup(variants: seq<Variant>, wire: string): (r: Option<Variant>)
    ensures r.Some? ==> r.value in variants && r.value.wire == wire
    ensures r.None? ==> forall v :: v in variants ==> v.wire != wire
  {
    if variants == [] then None
    else if variants[0].wire == wire then Some(variants[0])
    else Lookup(variants[1..], wire)
  }

  /** The first variant of a struct, which names its class and its injected discriminant. */
  function FirstOf(variants: seq<Variant>, structName: string): (r: Option<Variant>)
    ensures r.Some? ==> r.value in variants && r.value.structName == structName
    ensures r.None? ==> forall v :: v in variants ==> v.structName != structName
  {
    if variants == [] then None
    else if variants[0].structName == structName then Some(variants[0])
    else FirstOf(variants[1..], structName)
  }

  /** The variant that is found is the first with that wire value, or of that struct. */
  lemma {:induction false} LookupExactly(variants: seq<Variant>, wire: string, i: nat)
    requires i < |variants| && variants[i].wire == wire && forall j :: 0 <= j < i ==> variants[j].wire != wire
    ensures Lookup(variants, wire) == Some(variants[i])
  {
    if i > 0 {
      LookupExactly(variants[1..], wire, i - 1);
    }
  }

  lemma {:induction false} FirstOfExactly(variants: seq<Variant>, structName: string, i: nat)
    requires i < |variants| && variants[i].structName == structName && forall j :: 0 <= j < i ==> variants[j].structName != structName
    ensures FirstOf(variants, structName) == Some(variants[i])
  {
    if i > 0 {
      FirstOfExactly(variants[1..], structName, i - 1);
    }
  }

  lemma {:induction false} FirstOfSnoc(variants: seq<Variant>, v: Variant, structName: string)
    ensures FirstOf(variants + [v], structName)
         == if FirstOf(variants, structName).Some? then FirstOf(variants, structName)
            else if v.structName == structName then Some(v) else None
  {
    if variants == [] {
      assert (variants + [v])[1..] == [];
    } else {
      assert (variants + [v])[1..] == variants[1..] + [v];
      FirstOfSnoc(variants[1..], v, structName);
    }
  }

  /** The map of the Kotlin emitter from structs to their first variants. */
  method ByStruct(variants: seq<Variant>) returns (byStruct: map<string, Variant>)
    ensures forall s :: (if s in byStruct then Some(byStruct[s]) else None) == FirstOf(variants, s)
  {
    byStruct := map[];
    for i := 0 to |variants|
      invariant forall s :: (if s in byStruct then Some(byStruct[s]) else None) == FirstOf(variants[..i], s)
    {
      var v := variants[i];
      assert variants[..i + 1] == variants[..i] + [v];
      forall s ensures FirstOf(variants[..i + 1], s)
                    == if FirstOf(variants[..i], s).Some? then FirstOf(variants[..i], s)
                       else if v.structName == s then Some(v) else None
      {
        FirstOfSnoc(variants[..i], v, s);
      }
      if v.structName !in byStruct {
        byStruct := byStruct[v.structName := v];
      }
    }
    assert variants[..|variants|] == variants;
  }

  predicate DistinctWires(variants: seq<Variant>) {
    forall i, j :: 0 <= i < j < |variants| ==> variants[i].wire != variants[j].wire
  }

  lemma {:induction false} LookupDistinct(variants: seq<Variant>, v: Variant)
    requires DistinctWires(variants) && v in variants
    ensures Lookup(variants, v.wire) == Some(v)
  {
    if variants[0] != v {
      assert v in variants[1..];
      var k :| 0 < k < |variants| && variants[k] == v;
      LookupDistinct(variants[1..], v);
    }
  }

  // ---- decoding and encoding

  /** What follows once the discriminant has been read. */
  function Dispatch<R>(u: Union, codec: Codec<R>, json: WireValue, wire: string): Attempt<Value<R>> {
    match Lookup(u.variants, wire)
    case Some(v) =>
      (match ReadStruct(codec, u.field, v.structName, json)
       case Some(p) => Ok(Case(v.structName, p))
       case None => Fail(BadPayload))
    case None => if u.open then Ok(Unknown(json)) else Fail(UnknownDiscriminant(wire))
  }

  /** `(json as? JsonPrimitive)?.content`. */
  function PrimitiveText(json: WireValue): Option<string> {
    match json
    case Null => Some("null")
    case Bool(b) => Some(if b then "true" else "false")
    case Num(text) => Some(text)
    case Str(chars) => Some(chars)
    case _ => None
  }

  function KotlinDiscriminant(u: Union, json: WireValue): Option<string> {
    match MemberOf(json, u.field)
    case None => None
    case Some(member) => PrimitiveText(member)
  }

  function KotlinDecode<R>(u: Union, codec: Codec<R>, json: WireValue): Attempt<Value<R>> {
    if !json.Obj? then Fail(NotAnObject)
    else
      match KotlinDiscriminant(u, json)
      case None => if u.open then Ok(Unknown(json)) else Fail(MissingDiscriminant)
      case Some(wire) => Dispatch(u, codec, json, wire)
  }

  function Inject(u: Union, structName: string, json: WireValue): Attempt<WireValue> {
    if !json.Obj? then Fail(NotAnObject)
    else
      match FirstOf(u.variants, structName)
      case Some(v) => Ok(Obj(json.fields[u.field := Str(v.wire)]))
      case None => Ok(json)
  }

  function KotlinEncode<R>(u: Union, codec: Codec<R>, value: Value<R>): Attempt<WireValue> {
    match value
    case Case(structName, payload) =>
      var data := WriteStruct(codec, u.field, structName, payload);
      if u.inject then Inject(u, structName, data) else Ok(data)
    case Unknown(raw) => if u.inject && !raw.Obj? then Fail(NotAnObject) else Ok(raw)
    case NoValue => Fail(BadPayload)
  }

  /** `readDiscriminator`: the text and whether the field is there. */
  function GoDiscriminant(u: Union, json: WireValue): Attempt<(string, bool)> {
    if json.Null? then Ok(("", false))
    else if !json.Obj? then Fail(NotAnObject)
    else
      match MemberOf(json, u.field)
      case None => Ok(("", false))
      case Some(Null) => Ok(("", true))
      case Some(Str(chars)) => Ok((chars, true))
      case _ => Fail(BadDiscriminant)
  }

  function GoDecode<R>(u: Union, codec: Codec<R>, json: WireValue): Attempt<Value<R>> {
    match GoDiscriminant(u, json)
    case Fail(error) => Fail(error)
    case Ok((wire, present)) =>
      if !u.open && !present then Fail(MissingDiscriminant) else Dispatch(u, codec, json, wire)
  }

  function GoEncode<R>(u: Union, codec: Codec<R>, value: Value<R>): Attempt<WireValue> {
    match value
    case NoValue => Ok(Null)
    case Unknown(raw) => Ok(raw)
    case Case(structName, payload) =>
      var data := WriteStruct(codec, u.field, structName, payload);
      if u.inject then Inject(u, structName, data) else Ok(data)
  }

  /** The emitted union type: `UnmarshalJSON` assigns its field. */
  class GoUnion<R> {
    var value: Value<R>

    constructor ()
      ensures value == NoValue
    {
      value := NoValue;
    }

    method UnmarshalJSON(u: Union, codec: Codec<R>, data: WireValue) returns (err: Option<Error>)
      modifies this
      ensures match GoDecode(u, codec, data)
              case Ok(v) => err == None && value == v
              case Fail(e) => err == Some(e) && value == old(value)
    {
      var read := GoDiscriminant(u, data);
      if read.Fail? {
        return Some(read.error);
      }
      var (disc, ok) := read.value;
      if !u.open {
        if !ok {
          return Some(MissingDiscriminant);
        }
      }
      var found := Lookup(u.variants, disc);
      if found.Some? {
        var payload := ReadStruct(codec, u.field, found.value.structName, data);
        if payload.None? {
          return Some(BadPayload);
        }
        value := Case(found.value.structName, payload.value);
      } else if u.open {
        value := Unknown(data);
      } else {
        return Some(UnknownDiscriminant(disc));
      }
      return None;
    }

    method MarshalJSON(u: Union, codec: Codec<R>) returns (r: Attempt<WireValue>)
      ensures r == GoEncode(u, codec, value)
      ensures value == NoValue ==> r == Ok(Null)
    {
      if value.Unknown? {
        return Ok(value.raw);
      }
      if value.NoValue? {
        return Ok(Null);
      }
      var data := WriteStruct(codec, u.field, value.structName, value.payload);
      if u.inject {
        r := Inject(u, value.structName, data);
      } else {
        r := Ok(data);
      }
    }
  }

  // ---- what is assumed of the structs' own readers and writers

  /** The other members written for `rest` are read as `rest` again, and a discriminant is read as
      the text that it is, or refused. */
  ghost predicate Lawful<R>(codec: Codec<R>, field: string, structName: string, rest: R) {
    && field !in codec.enc(structName, rest) && codec.dec(structName, codec.enc(structName, rest)) == Some(rest)
    && (forall wire, kind :: codec.kinds(structName, Some(Str(wire))) == Some(kind) ==> kind == wire)
  }

  /** The payload is a value of the struct's type. */
  predicate Holds<R>(codec: Codec<R>, structName: string, p: Payload<R>) {
    && (p.kind.Some? <==> codec.stores(structName))
    && (p.kind.Some? ==> codec.kinds(structName, Some(Str(p.kind.value))) == p.kind)
  }

  /** What a struct reads from the members that were written for `p`, with the discriminant `wire`
      in the object: the payload with that discriminant in place of its own. */
  lemma ReadsBack<R>(codec: Codec<R>, field: string, structName: string, p: Payload<R>, wire: string)
    requires Lawful(codec, field, structName, p.rest) && (p.kind.Some? <==> codec.stores(structName))
    ensures (var data := Obj(WriteStruct(codec, field, structName, p).fields[field := Str(wire)]);
             ReadStruct(codec, field, structName, data)
             == if p.kind.None? then Some(p)
                else if codec.kinds(structName, Some(Str(wire))).Some? then Some(p.(kind := Some(wire)))
                else None)
  {
    var rest := codec.enc(structName, p.rest);
    var data := Obj(WriteStruct(codec, field, structName, p).fields[field := Str(wire)]);
    assert field !in rest;
    assert data.fields - {field} == rest;
  }

  // ---- when a payload comes back

  predicate IsVariant(variants: seq<Variant>, structName: string, wire: string) {
    exists i :: 0 <= i < |variants| && variants[i].structName == structName && variants[i].wire == wire
  }

  lemma LookupIsVariant(variants: seq<Variant>, structName: string, wire: string)
    requires DistinctWires(variants)
    ensures IsVariant(variants, structName, wire)
       <==> Lookup(variants, wire).Some? && Lookup(variants, wire).value.structName == structName
  {
    if IsVariant(variants, structName, wire) {
      var i :| 0 <= i < |variants| && variants[i].structName == structName && variants[i].wire == wire;
      assert variants[i] in variants;
      LookupDistinct(variants, variants[i]);
    }
    var found := Lookup(variants, wire);
    if found.Some? && found.value.structName == structName {
      assert found.value in variants;
    }
  }

  /** The discriminant that encoding leaves in the object leads back to the payload: with injection
      the payload has none of its own or that of the first variant of its struct; without, it has
      one that its struct is configured for. */
  predicate Returns<R>(u: Union, structName: string, p: Payload<R>)
    requires FirstOf(u.variants, structName).Some?
  {
    if u.inject then p.kind.None? || p.kind == Some(FirstOf(u.variants, structName).value.wire)
    else p.kind.Some? && IsVariant(u.variants, structName, p.kind.value)
  }

  lemma FirstIsVariant(u: Union, structName: string)
    requires DistinctWires(u.variants) && FirstOf(u.variants, structName).Some?
    ensures Lookup(u.variants, FirstOf(u.variants, structName).value.wire) == FirstOf(u.variants, structName)
  {
    LookupDistinct(u.variants, FirstOf(u.variants, structName).value);
  }

  /** What is written for an injected payload, and what is read from it: the payload, with the
      discriminant of the first variant of its struct in place of its own. */
  lemma InjectedReads<R>(u: Union, codec: Codec<R>, structName: string, p: Payload<R>)
    requires u.inject && DistinctWires(u.variants) && Lawful(codec, u.field, structName, p.rest)
    requires FirstOf(u.variants, structName).Some? && (p.kind.Some? <==> codec.stores(structName))
    ensures (var out := KotlinEncode(u, codec, Case(structName, p)); var wire := FirstOf(u.variants, structName).value.wire;
             && out == GoEncode(u, codec, Case(structName, p)) && out.Ok?
             && KotlinDecode(u, codec, out.value) == GoDecode(u, codec, out.value)
             && KotlinDecode(u, codec, out.value)
                == if p.kind.None? then Ok(Case(structName, p))
                   else if codec.kinds(structName, Some(Str(wire))).Some? then Ok(Case(structName, p.(kind := Some(wire))))
                   else Fail(BadPayload))
  {
    hide Lawful, DistinctWires, ReadStruct, WriteStruct;
    FirstIsVariant(u, structName);
    WritesObject(codec, u.field, structName, p);
    ReadsBack(codec, u.field, structName, p, FirstOf(u.variants, structName).value.wire);
  }

  lemma WritesObject<R>(codec: Codec<R>, field: string, structName: string, p: Payload<R>)
    ensures WriteStruct(codec, field, structName, p).Obj?
    ensures Lawful(codec, field, structName, p.rest) ==>
              MemberOf(WriteStruct(codec, field, structName, p), field)
              == if p.kind.Some? then Some(Str(p.kind.value)) else None
    ensures p.kind.Some? ==>
              (var data := WriteStruct(codec, field, structName, p); data == Obj(data.fields[field := Str(p.kind.value)]))
  {
  }

  /** Decoding undoes encoding exactly when the payload returns; with Go, also when an open union
      has a variant with an empty wire value for a struct that writes no discriminant. */
  lemma RoundTripExactly<R>(u: Union, codec: Codec<R>, structName: string, p: Payload<R>)
    requires DistinctWires(u.variants) && Lawful(codec, u.field, structName, p.rest)
    requires FirstOf(u.variants, structName).Some? && Holds(codec, structName, p)
    ensures (var out := KotlinEncode(u, codec, Case(structName, p));
             && out == GoEncode(u, codec, Case(structName, p)) && out.Ok?
             && (KotlinDecode(u, codec, out.value) == Ok(Case(structName, p)) <==> Returns(u, structName, p))
             && (GoDecode(u, codec, out.value) == Ok(Case(structName, p))
                 <==> || Returns(u, structName, p)
                      || (!u.inject && u.open && p.kind.None? && IsVariant(u.variants, structName, ""))))
  {
    hide Lawful, DistinctWires, ReadStruct, WriteStruct, IsVariant;
    if u.inject {
      InjectedReads(u, codec, structName, p);
    } else {
      WritesObject(codec, u.field, structName, p);
      if p.kind.Some? {
        LookupIsVariant(u.variants, structName, p.kind.value);
        ReadsBack(codec, u.field, structName, p, p.kind.value);
      } else {
        LookupIsVariant(u.variants, structName, "");
        ReadsOwn(codec, u.field, structName, p);
      }
    }
  }

  lemma ReadsOwn<R>(codec: Codec<R>, field: string, structName: string, p: Payload<R>)
    requires Lawful(codec, field, structName, p.rest) && p.kind.None? && !codec.stores(structName)
    ensures ReadStruct(codec, field, structName, WriteStruct(codec, field, structName, p)) == Some(p)
  {
    var rest := codec.enc(structName, p.rest);
    assert field !in rest;
    assert rest - {field} == rest;
  }

  /** A struct with a field for its discriminant, in a union that injects: whatever it holds is
      written as `schedule` and read back as that. */
  lemma InjectionOverwrites(kind: string)
    ensures (var u := Union("kind", [Variant("Schedule", "ScheduleTrigger", "schedule")], false, true);
             var codec: Codec<string> := Codec(
               s => true,
               (s, member: Option<WireValue>) => if member.Some? && member.value.Str? then Some(member.value.chars) else None,
               (s, members: map<string, WireValue>) => if "at" in members && members["at"].Str? then Some(members["at"].chars) else None,
               (s, at) => map["at" := Str(at)]);
             var out := KotlinEncode(u, codec, Case("ScheduleTrigger", Payload(Some(kind), "noon")));
             && Lawful(codec, "kind", "ScheduleTrigger", "noon") && out.Ok?
             && KotlinDecode(u, codec, out.value) == Ok(Case("ScheduleTrigger", Payload(Some("schedule"), "noon")))
             && GoDecode(u, codec, out.value) == Ok(Case("ScheduleTrigger", Payload(Some("schedule"), "noon"))))
  {
    var v := Variant("Schedule", "ScheduleTrigger", "schedule");
    var u := Union("kind", [v], false, true);
    var codec: Codec<string> := Codec(
      s => true,
      (s, member: Option<WireValue>) => if member.Some? && member.value.Str? then Some(member.value.chars) else None,
      (s, members: map<string, WireValue>) => if "at" in members && members["at"].Str? then Some(members["at"].chars) else None,
      (s, at) => map["at" := Str(at)]);
    assert "kind"[0] == 'k' && "at"[0] == 'a';
    assert Lawful(codec, "kind", "ScheduleTrigger", "noon");
    assert FirstOf([v], "ScheduleTrigger") == Some(v);
    InjectedReads(u, codec, "ScheduleTrigger", Payload(Some(kind), "noon"));
  }

  // ---- the declared discriminants

  /** The type declared for a struct's discriminant has this value: the value of an enum member that
      it names, or a literal. */
  predicate Declares(g: Graph<string>, ghost rank: map<string, nat>, enums: Enums, field: string, structName: string, wire: string)
    requires Acyclic(g, rank)
  {
    var property := PropertyInHierarchy(g, rank, structName, field);
    property.Some? && (MemberValue(enums, EnumRefs(property.value, false), wire) || IsLiteral(property.value, wire))
  }

  predicate MemberValue(enums: Enums, refs: seq<(string, string)>, wire: string) {
    exists i :: 0 <= i < |refs| && refs[i].0 in enums && refs[i].1 in enums[refs[i].0].members
                && enums[refs[i].0].members[refs[i].1] == wire
  }

  predicate IsLiteral(text: string, wire: string) {
    LiteralValues(Trim(text)).Some? && wire in LiteralValues(Trim(text)).value
  }

  /** The payload of a struct with a declared discriminant. */
  ghost predicate DeclaredReturn<R(!new)>(g: Graph<string>, rank: map<string, nat>, enums: Enums, u: Union, codec: Codec<R>,
                                          structName: string, wire: string)
  {
    forall r: R :: Lawful(codec, u.field, structName, r) ==>
      (var value := Case(structName, Payload(Some(wire), r));
       && KotlinEncode(u, codec, value).Ok? && KotlinDecode(u, codec, KotlinEncode(u, codec, value).value) == Ok(value)
       && GoEncode(u, codec, value).Ok? && GoDecode(u, codec, GoEncode(u, codec, value).value) == Ok(value))
  }

  /** The wire values of the configuration agree with the types: every value declared for a struct
      is one of its variants, and with injection its first. */
  ghost predicate WiresCover(g: Graph<string>, rank: map<string, nat>, enums: Enums, cfg: Config)
    requires Acyclic(g, rank)
  {
    forall v, wire :: v in cfg.variants && Declares(g, rank, enums, cfg.field, v.structName, wire) ==>
      && (cfg.inject ==> FirstOf(cfg.variants, v.structName).Some? && FirstOf(cfg.variants, v.structName).value.wire == wire)
      && (!cfg.inject ==> IsVariant(cfg.variants, v.structName, wire))
  }

  /** Every struct has a field for its discriminant that holds all values declared for it. */
  ghost predicate StoresDeclared<R(!new)>(g: Graph<string>, rank: map<string, nat>, enums: Enums, cfg: Config, codec: Codec<R>)
    requires Acyclic(g, rank)
  {
    forall v, wire :: v in cfg.variants && Declares(g, rank, enums, cfg.field, v.structName, wire) ==>
      codec.stores(v.structName) && codec.kinds(v.structName, Some(Str(wire))).Some?
  }

  /** All payloads whose discriminant is of its declared type come back, in both languages, exactly
      when the configured wire values agree with the types. */
  lemma DeclaredReturnExactly<R(!new)>(g: Graph<string>, rank: map<string, nat>, enums: Enums, cfg: Config, u: Union,
                                       codec: Codec<R>, some: string -> R)
    requires Acyclic(g, rank) && Emit(g, rank, enums, cfg) == Some(u)
    requires forall v :: v in cfg.variants ==> Lawful(codec, cfg.field, v.structName, some(v.structName))
    requires DistinctWires(cfg.variants) && StoresDeclared(g, rank, enums, cfg, codec)
    ensures (forall v, wire :: v in cfg.variants && Declares(g, rank, enums, cfg.field, v.structName, wire) ==>
               DeclaredReturn(g, rank, enums, u, codec, v.structName, wire))
       <==> WiresCover(g, rank, enums, cfg)
  {
    hide Declares, DistinctWires, IsVariant, Emit, DeclaredReturn, Lawful;
    EmitMeans(g, rank, enums, cfg, u);
    forall v, wire | v in cfg.variants && Declares(g, rank, enums, cfg.field, v.structName, wire)
      ensures FirstOf(cfg.variants, v.structName).Some?
      ensures DeclaredReturn(g, rank, enums, u, codec, v.structName, wire)
         <==> && (cfg.inject ==> FirstOf(cfg.variants, v.structName).value.wire == wire)
              && (!cfg.inject ==> IsVariant(cfg.variants, v.structName, wire))
    {
      StoredValue(g, rank, enums, cfg, codec, v, wire);
      KindReturns(g, rank, enums, u, codec, v, wire, some(v.structName));
    }
  }

  lemma StoredValue<R(!new)>(g: Graph<string>, rank: map<string, nat>, enums: Enums, cfg: Config, codec: Codec<R>, v: Variant, wire: string)
    requires Acyclic(g, rank) && StoresDeclared(g, rank, enums, cfg, codec)
    requires v in cfg.variants && Declares(g, rank, enums, cfg.field, v.structName, wire)
    ensures codec.stores(v.structName) && codec.kinds(v.structName, Some(Str(wire))).Some?
  {
  }

  lemma EmitMeans(g: Graph<string>, rank: map<string, nat>, enums: Enums, cfg: Config, u: Union)
    requires Acyclic(g, rank) && Emit(g, rank, enums, cfg) == Some(u)
    ensures u.field == cfg.field && u.variants == cfg.variants && u.inject == cfg.inject
  {
    hide AllowsUnknown;
  }

  lemma KindReturns<R(!new)>(g: Graph<string>, rank: map<string, nat>, enums: Enums, u: Union, codec: Codec<R>,
                             v: Variant, wire: string, some: R)
    requires v in u.variants && DistinctWires(u.variants) && Lawful(codec, u.field, v.structName, some)
    requires codec.stores(v.structName) && codec.kinds(v.structName, Some(Str(wire))).Some?
    ensures FirstOf(u.variants, v.structName).Some?
    ensures DeclaredReturn(g, rank, enums, u, codec, v.structName, wire)
       <==> Returns(u, v.structName, Payload<R>.Payload(Some(wire), some))
  {
    hide DistinctWires, IsVariant, KotlinDecode, KotlinEncode, GoDecode, GoEncode;
    forall r: R | Lawful(codec, u.field, v.structName, r)
      ensures (var value := Case(v.structName, Payload(Some(wire), r));
               && KotlinEncode(u, codec, value).Ok? && GoEncode(u, codec, value).Ok?
               && (KotlinDecode(u, codec, KotlinEncode(u, codec, value).value) == Ok(value)
                   <==> Returns(u, v.structName, Payload<R>.Payload(Some(wire), some)))
               && (GoDecode(u, codec, GoEncode(u, codec, value).value) == Ok(value)
                   <==> Returns(u, v.structName, Payload<R>.Payload(Some(wire), some))))
    {
      RoundTripExactly(u, codec, v.structName, Payload(Some(wire), r));
    }
    assert Case(v.structName, Payload(Some(wire), some)) == Case(v.structName, Payload(Some(wire), some));
  }

  // ---- unknown discriminants

  /** The union is open by the declarations: by the enum that the configuration names, or else by
      the one that the discriminants name, or else as configured. */
  ghost predicate OpenByDeclaration(g: Graph<string>, rank: map<string, nat>, enums: Enums, cfg: Config)
    requires Acyclic(g, rank)
  {
    match cfg.enumName
    case Some(name) => name in enums && enums[name].open
    case None =>
      || (NoEnumNamed(g, rank, cfg.field, Structs(cfg.variants)) && cfg.fallback)
      || exists name :: OneEnum(g, rank, cfg.field, Structs(cfg.variants), name) && name in enums && enums[name].open
  }

  lemma OpenExactly(g: Graph<string>, rank: map<string, nat>, enums: Enums, cfg: Config, u: Union)
    requires Acyclic(g, rank) && Emit(g, rank, enums, cfg) == Some(u)
    ensures u.open <==> OpenByDeclaration(g, rank, enums, cfg)
  {
    hide NoEnumNamed, OneEnum, AllDeclare, AnswerFrom, Structs;
    var structs := Structs(cfg.variants);
    if cfg.enumName.None? {
      AllowsUnknownExactly(g, rank, enums, cfg.field, structs, cfg.fallback, true);
      AllowsUnknownExactly(g, rank, enums, cfg.field, structs, cfg.fallback, false);
    }
  }

  /** Decoded and encoded again, it is the same. */
  predicate Survives<R(==)>(u: Union, codec: Codec<R>, json: WireValue) {
    && KotlinDecode(u, codec, json).Ok? && KotlinEncode(u, codec, KotlinDecode(u, codec, json).value) == Ok(json)
    && GoDecode(u, codec, json).Ok? && GoEncode(u, codec, GoDecode(u, codec, json).value) == Ok(json)
  }

  /** An object whose discriminant is no wire value survives in both languages exactly when the
      union is open by the declarations; otherwise both reject it. */
  lemma UnknownSurvivesExactly<R>(g: Graph<string>, rank: map<string, nat>, enums: Enums, cfg: Config, u: Union,
                                  codec: Codec<R>, json: WireValue, wire: string)
    requires Acyclic(g, rank) && Emit(g, rank, enums, cfg) == Some(u)
    requires MemberOf(json, cfg.field) == Some(Str(wire)) && forall v :: v in cfg.variants ==> v.wire != wire
    ensures Survives(u, codec, json) <==> OpenByDeclaration(g, rank, enums, cfg)
    ensures !OpenByDeclaration(g, rank, enums, cfg) ==>
              KotlinDecode(u, codec, json) == GoDecode(u, codec, json) == Fail(UnknownDiscriminant(wire))
  {
    hide OpenByDeclaration, AllowsUnknown;
    OpenExactly(g, rank, enums, cfg, u);
    var found := Lookup(u.variants, wire);
    assert found.None?;
  }

  /** Kotlin takes a discriminant that is no string by its text; Go rejects it, except `null`, which
      it takes for the empty text. */
  lemma PrimitiveDiscriminants<R>(u: Union, codec: Codec<R>, json: WireValue)
    requires json.Obj? && u.field in json.fields
    ensures json.fields[u.field] == Null ==>
              KotlinDecode(u, codec, json) == Dispatch(u, codec, json, "null") && GoDecode(u, codec, json) == Dispatch(u, codec, json, "")
    ensures forall b :: json.fields[u.field] == Bool(b) ==>
              KotlinDecode(u, codec, json) == Dispatch(u, codec, json, if b then "true" else "false")
    ensures forall text :: json.fields[u.field] == Num(text) ==> KotlinDecode(u, codec, json) == Dispatch(u, codec, json, text)
    ensures !json.fields[u.field].Str? && !json.fields[u.field].Null? ==> GoDecode(u, codec, json) == Fail(BadDiscriminant)
  {
    hide Dispatch;
  }

  /** An object without the discriminant is rejected by a closed union, and kept by an open one. */
  lemma MissingDiscriminants<R>(u: Union, codec: Codec<R>, json: WireValue)
    requires json.Obj? && u.field !in json.fields
    ensures !u.open ==> KotlinDecode(u, codec, json) == GoDecode(u, codec, json) == Fail(MissingDiscriminant)
    ensures u.open ==> KotlinDecode(u, codec, json) == Ok(Unknown(json))
    ensures u.open && (forall v :: v in u.variants ==> v.wire != "") ==> GoDecode(u, codec, json) == Ok(Unknown(json))
  {
    hide ReadStruct;
    assert (forall v :: v in u.variants ==> v.wire != "") ==> Lookup(u.variants, "") == None;
  }

  // ---- relaying

  /** What a client writes for an object that it has read as a case of the union. */
  lemma RelayExactly<R>(u: Union, codec: Codec<R>, json: WireValue, v: Variant, p: Payload<R>)
    requires DistinctWires(u.variants) && Lawful(codec, u.field, v.structName, p.rest) && v in u.variants
    requires MemberOf(json, u.field) == Some(Str(v.wire)) && ReadStruct(codec, u.field, v.structName, json) == Some(p)
    // both clients read it so
    ensures KotlinDecode(u, codec, json) == GoDecode(u, codec, json) == Ok(Case(v.structName, p))
    ensures (var out := KotlinEncode(u, codec, Case(v.structName, p)); var first := FirstOf(u.variants, v.structName);
             && out == GoEncode(u, codec, Case(v.structName, p)) && out.Ok? && first.Some?
             // the discriminant stays
             && (MemberOf(out.value, u.field) == Some(Str(v.wire))
                 <==> if u.inject then first == Some(v) else codec.stores(v.structName))
             // and reading what was written gives the same value
             && (KotlinDecode(u, codec, out.value) == Ok(Case(v.structName, p))
                 <==> if u.inject then first == Some(v) || !codec.stores(v.structName) else codec.stores(v.structName)))
  {
    hide Lawful, DistinctWires, WriteStruct, IsVariant;
    LookupDistinct(u.variants, v);
    var first := FirstOf(u.variants, v.structName);
    assert first.Some?;
    assert first.value.wire == v.wire ==> first.value == v by {
      LookupDistinct(u.variants, first.value);
    }
    KindRead(codec, u.field, v.structName, json, v.wire, p);
    RoundTripExactly(u, codec, v.structName, p);
    WritesObject(codec, u.field, v.structName, p);
    assert IsVariant(u.variants, v.structName, v.wire) by { LookupIsVariant(u.variants, v.structName, v.wire); }
  }

  lemma KindRead<R>(codec: Codec<R>, field: string, structName: string, json: WireValue, wire: string, p: Payload<R>)
    requires Lawful(codec, field, structName, p.rest) && MemberOf(json, field) == Some(Str(wire))
    requires ReadStruct(codec, field, structName, json) == Some(p)
    ensures Holds(codec, structName, p) && p.kind == if codec.stores(structName) then Some(wire) else None
  {
  }

  /** What a client has read as unknown is the whole input, and is written and read as that again. */
  lemma UnknownRelays<R>(u: Union, codec: Codec<R>, json: WireValue, raw: WireValue)
    ensures KotlinDecode(u, codec, json) == Ok(Unknown(raw)) ==> raw == json && KotlinEncode(u, codec, Unknown(raw)) == Ok(json)
    ensures GoDecode(u, codec, json) == Ok(Unknown(raw)) ==> raw == json && GoEncode(u, codec, Unknown(raw)) == Ok(json)
  {
  }

  // ---- the two languages

  /** The same value, or an error in both. */
  predicate SameAttempt<R(==)>(a: Attempt<Value<R>>, b: Attempt<Value<R>>) {
    (a.Fail? && b.Fail?) || a == b
  }

  /** No wire value is empty or the text of the discriminant that is not a string. */
  predicate PlainWires(u: Union, json: WireValue) {
    && Lookup(u.variants, "") == None
    && (json.Obj? && u.field in json.fields && !json.fields[u.field].Str? && KotlinDiscriminant(u, json).Some? ==>
          Lookup(u.variants, KotlinDiscriminant(u, json).value) == None)
  }

  /** Kotlin and Go decode alike, except that on an open union Go keeps `null` and rejects a
      discriminant that is no string, and Kotlin does the opposite. */
  lemma LanguagesAgreeExactly<R>(u: Union, codec: Codec<R>, json: WireValue)
    requires PlainWires(u, json)
    ensures SameAttempt(KotlinDecode(u, codec, json), GoDecode(u, codec, json))
       <==> || !u.open
            || (!json.Obj? && !json.Null?)
            || (json.Obj? && (u.field in json.fields ==> json.fields[u.field].Str? || json.fields[u.field].Null?))
  {
  }
}
