/** When compiling a type text ends: the depth limit stops every nesting inside one text, and
    only interfaces that reach themselves through `Partial<>` can go on for ever. */
module TypeTermination {
  import opened Schema
  import opened TypeText
  import opened TypeCompiler

  /** The interfaces that compiling the text expands, without looking inside them. */
  function PartialsIn(p: Project, text: string, depth: nat): set<string>
    decreases |text|, 1, 0
  {
    if depth > DEPTH_LIMIT then {}
    else
      ClassifyShrinks(p, text);
      match Classify(p, text)
      case Leaf(_) => {}
      case Same(t) => PartialsIn(p, t, depth + 1)
      case ArrayOf(t) => PartialsIn(p, t, depth + 1)
      case RecordOf(t) => PartialsIn(p, t, depth + 1)
      case OneOf(ts) => PartialsInAll(p, ts, depth + 1, |text|)
      case PartialOf(name) => {name}
      case Inline(fs) => PartialsInFields(p, fs, |text|)
  }

  function PartialsInAll(p: Project, texts: seq<string>, depth: nat, ghost bound: nat): set<string>
    requires forall i :: 0 <= i < |texts| ==> |texts[i]| < bound
    decreases bound, 0, |texts|
  {
    if texts == [] then {} else PartialsIn(p, texts[0], depth) + PartialsInAll(p, texts[1..], depth, bound)
  }

  function PartialsInFields(p: Project, fields: seq<Field>, ghost bound: nat): set<string>
    requires forall i :: 0 <= i < |fields| ==> |fields[i].text| < bound
    decreases bound, 0, |fields|
  {
    if fields == [] then {} else PartialsIn(p, fields[0].text, 0) + PartialsInFields(p, fields[1..], bound)
  }

  /** The interfaces that an interface expands directly. */
  function PartialsOf(p: Project, props: seq<Prop>): set<string> {
    if props == [] then {} else PartialsIn(p, props[0].text, 0) + PartialsOf(p, props[1..])
  }

  /** The names have ranks that fall along every expansion: nothing reaches itself. */
  ghost predicate Ranked(p: Project, rank: map<string, nat>) {
    forall x, y :: x in p.interfaces && y in PartialsOf(p, p.interfaces[x]) ==> x in rank && y in rank && rank[y] < rank[x]
  }

  ghost predicate Below(names: set<string>, rank: map<string, nat>, stack: nat) {
    forall y :: y in names ==> y in rank && rank[y] < stack
  }

  /** Compiling ends without exhausting a stack that exceeds the ranks of the names expanded,
      and then a larger stack gives the same result. */
  lemma {:induction false} RankedTerminates(p: Project, rank: map<string, nat>, text: string, depth: nat, stack: nat, more: nat)
    requires Ranked(p, rank) && stack <= more && Below(PartialsIn(p, text, depth), rank, stack)
    ensures Compile(p, text, depth, stack) != StackOverflow
    ensures Compile(p, text, depth, more) == Compile(p, text, depth, stack)
    decreases 2 * stack, |text|, 1, 0
  {
    hide Ranked, Classify, Smaller, Below, CompileAll, CompileFields, CompileProps, PartialsInAll, PartialsInFields;
    if depth <= DEPTH_LIMIT {
      ClassifyShrinks(p, text);
      SmallerMeans(Classify(p, text), |text|);
      match Classify(p, text) {
        case Leaf(_) =>
        case Same(t) => RankedTerminates(p, rank, t, depth + 1, stack, more);
        case ArrayOf(t) => RankedTerminates(p, rank, t, depth + 1, stack, more);
        case RecordOf(t) => RankedTerminates(p, rank, t, depth + 1, stack, more);
        case OneOf(ts) => RankedTerminatesAll(p, rank, ts, depth + 1, stack, more, |text|);
        case PartialOf(name) =>
          KnownPartial(p, text);
          BelowOne(name, rank, stack);
          ExpandedBelow(p, rank, name, stack);
          RankedTerminatesProps(p, rank, p.interfaces[name], EMPTY_OBJECT, stack - 1, more - 1);
        case Inline(fs) => RankedTerminatesFields(p, rank, fs, EMPTY_OBJECT, stack, more, |text|);
      }
    }
  }

  lemma SmallerMeans(shape: Shape, bound: nat)
    requires Smaller(shape, bound)
    ensures shape.ArrayOf? || shape.RecordOf? || shape.Same? ==> |shape.text| < bound
    ensures shape.OneOf? ==> forall i :: 0 <= i < |shape.texts| ==> |shape.texts[i]| < bound
    ensures shape.Inline? ==> forall i :: 0 <= i < |shape.fields| ==> |shape.fields[i].text| < bound
  {
  }

  lemma BelowOne(name: string, rank: map<string, nat>, stack: nat)
    requires Below({name}, rank, stack)
    ensures name in rank && rank[name] < stack
  {
  }

  lemma UnionIsNoPartial(p: Project, cleaned: string)
    ensures !ClassifyUnion(p, cleaned).PartialOf?
  {
    hide InlineFields, LiveParts, SplitUnion, EnumMember, EnumValue;
  }

  lemma KnownPartial(p: Project, text: string)
    ensures Classify(p, text).PartialOf? ==> Classify(p, text).name in p.interfaces
  {
    hide LiteralValues, ArrayElement, RecordValue, BeforeUndefined, PartialName, Cleaned, SimpleNode, ClassifyUnion;
    UnionIsNoPartial(p, Cleaned(text));
  }

  lemma ExpandedBelow(p: Project, rank: map<string, nat>, name: string, stack: nat)
    requires Ranked(p, rank) && name in p.interfaces && name in rank && rank[name] < stack
    ensures Below(PartialsOf(p, p.interfaces[name]), rank, stack - 1)
  {
    hide PartialsOf;
  }

  lemma {:induction false} RankedTerminatesAll(p: Project, rank: map<string, nat>, texts: seq<string>, depth: nat,
                                               stack: nat, more: nat, bound: nat)
    requires Ranked(p, rank) && stack <= more
    requires forall i :: 0 <= i < |texts| ==> |texts[i]| < bound
    requires Below(PartialsInAll(p, texts, depth, bound), rank, stack)
    ensures CompileAll(p, texts, depth, stack, bound) != StackOverflow
    ensures CompileAll(p, texts, depth, more, bound) == CompileAll(p, texts, depth, stack, bound)
    decreases 2 * stack, bound, 0, |texts|
  {
    hide Ranked, Compile, PartialsIn;
    if texts != [] {
      RankedTerminates(p, rank, texts[0], depth, stack, more);
      RankedTerminatesAll(p, rank, texts[1..], depth, stack, more, bound);
    }
  }

  lemma {:induction false} RankedTerminatesFields(p: Project, rank: map<string, nat>, fields: seq<Field>, sofar: Node,
                                                  stack: nat, more: nat, bound: nat)
    requires Ranked(p, rank) && stack <= more
    requires forall i :: 0 <= i < |fields| ==> |fields[i].text| < bound
    requires Below(PartialsInFields(p, fields, bound), rank, stack)
    ensures CompileFields(p, fields, sofar, stack, bound) != StackOverflow
    ensures CompileFields(p, fields, sofar, more, bound) == CompileFields(p, fields, sofar, stack, bound)
    decreases 2 * stack, bound, 0, |fields|
  {
    hide Ranked, Compile, PartialsIn, SetProperty, TypeAdmitsUndefined;
    if fields != [] {
      var f := fields[0];
      RankedTerminates(p, rank, f.text, 0, stack, more);
      match Compile(p, f.text, 0, stack) {
        case Ok(schema) =>
          var next := sofar.(properties := SetProperty(sofar.properties, f.name, schema),
                             required := if !f.optional && !TypeAdmitsUndefined(f.text)
                                         then sofar.required + [f.name] else sofar.required);
          RankedTerminatesFields(p, rank, fields[1..], next, stack, more, bound);
        case _ =>
      }
    }
  }

  lemma {:induction false} RankedTerminatesProps(p: Project, rank: map<string, nat>, props: seq<Prop>, sofar: Node,
                                                 stack: nat, more: nat)
    requires Ranked(p, rank) && stack <= more
    requires Below(PartialsOf(p, props), rank, stack)
    ensures CompileProps(p, props, sofar, stack) != StackOverflow
    ensures CompileProps(p, props, sofar, more) == CompileProps(p, props, sofar, stack)
    decreases 2 * stack + 1, 0, 0, |props|
  {
    hide Ranked, Compile, PartialsIn, SetProperty, TypeAdmitsUndefined;
    if props != [] {
      var q := props[0];
      RankedTerminates(p, rank, q.text, 0, stack, more);
      match Compile(p, q.text, 0, stack) {
        case Ok(schema) =>
          var next := sofar.(properties := SetProperty(sofar.properties, q.name, schema),
                             required := if !q.question && !TypeAdmitsUndefined(q.text) && q.name !in sofar.required
                                         then sofar.required + [q.name] else sofar.required);
          RankedTerminatesProps(p, rank, props[1..], next, stack, more);
        case _ =>
      }
    }
  }

  // ---- the converse

  /** Every one of the interfaces expands another one of them. */
  ghost predicate Trapped(p: Project, names: set<string>) {
    forall x :: x in names ==> x in p.interfaces && exists y :: y in names && y in PartialsOf(p, p.interfaces[x])
  }

  /** Without such ranks there is a set of interfaces that expand each other for ever, and a text
      that enters it never yields a schema, however large the stack is. */
  lemma {:induction false} TrappedNeverCompiles(p: Project, names: set<string>, text: string, depth: nat, stack: nat, y: string)
    requires Trapped(p, names) && y in names && y in PartialsIn(p, text, depth)
    ensures !Compile(p, text, depth, stack).Ok?
    decreases 2 * stack, |text|, 1, 0
  {
    hide Trapped, Classify, Smaller, CompileAll, CompileFields, CompileProps, PartialsInAll, PartialsInFields, PartialsOf;
    hide EMPTY_OBJECT, SetProperty, ArrayNode, RecordNode, OneOfNode;
    ClassifyShrinks(p, text);
    SmallerMeans(Classify(p, text), |text|);
    match Classify(p, text) {
      case Leaf(_) =>
      case Same(t) => TrappedNeverCompiles(p, names, t, depth + 1, stack, y);
      case ArrayOf(t) => TrappedNeverCompiles(p, names, t, depth + 1, stack, y);
      case RecordOf(t) => TrappedNeverCompiles(p, names, t, depth + 1, stack, y);
      case OneOf(ts) => TrappedAll(p, names, ts, depth + 1, stack, |text|, y);
      case PartialOf(name) =>
        if stack > 0 {
          var z := NextTrapped(p, names, name);
          TrappedProps(p, names, p.interfaces[name], EMPTY_OBJECT, stack - 1, z);
        }
      case Inline(fs) => TrappedFields(p, names, fs, EMPTY_OBJECT, stack, |text|, y);
    }
  }

  lemma NextTrapped(p: Project, names: set<string>, x: string) returns (y: string)
    requires Trapped(p, names) && x in names
    ensures x in p.interfaces && y in names && y in PartialsOf(p, p.interfaces[x])
  {
    hide PartialsOf;
    y :| y in names && y in PartialsOf(p, p.interfaces[x]);
  }

  lemma {:induction false} TrappedAll(p: Project, names: set<string>, texts: seq<string>, depth: nat, stack: nat, bound: nat, y: string)
    requires Trapped(p, names) && y in names
    requires forall i :: 0 <= i < |texts| ==> |texts[i]| < bound
    requires y in PartialsInAll(p, texts, depth, bound)
    ensures !CompileAll(p, texts, depth, stack, bound).Ok?
    decreases 2 * stack, bound, 0, |texts|
  {
    hide Trapped, Compile, PartialsIn;
    if y in PartialsIn(p, texts[0], depth) {
      TrappedNeverCompiles(p, names, texts[0], depth, stack, y);
    } else {
      TrappedAll(p, names, texts[1..], depth, stack, bound, y);
    }
  }

  lemma {:induction false} TrappedFields(p: Project, names: set<string>, fields: seq<Field>, sofar: Node, stack: nat, bound: nat, y: string)
    requires Trapped(p, names) && y in names
    requires forall i :: 0 <= i < |fields| ==> |fields[i].text| < bound
    requires y in PartialsInFields(p, fields, bound)
    ensures !CompileFields(p, fields, sofar, stack, bound).Ok?
    decreases 2 * stack, bound, 0, |fields|
  {
    hide Trapped, Compile, PartialsIn, SetProperty, TypeAdmitsUndefined;
    var f := fields[0];
    if y in PartialsIn(p, f.text, 0) {
      TrappedNeverCompiles(p, names, f.text, 0, stack, y);
    } else if Compile(p, f.text, 0, stack).Ok? {
      var next := sofar.(properties := SetProperty(sofar.properties, f.name, Compile(p, f.text, 0, stack).value),
                         required := if !f.optional && !TypeAdmitsUndefined(f.text)
                                     then sofar.required + [f.name] else sofar.required);
      TrappedFields(p, names, fields[1..], next, stack, bound, y);
    }
  }

  lemma {:induction false} TrappedProps(p: Project, names: set<string>, props: seq<Prop>, sofar: Node, stack: nat, y: string)
    requires Trapped(p, names) && y in names && y in PartialsOf(p, props)
    ensures !CompileProps(p, props, sofar, stack).Ok?
    decreases 2 * stack + 1, 0, 0, |props|
  {
    hide Trapped, Compile, PartialsIn, SetProperty, TypeAdmitsUndefined;
    var q := props[0];
    if y in PartialsIn(p, q.text, 0) {
      TrappedNeverCompiles(p, names, q.text, 0, stack, y);
    } else if Compile(p, q.text, 0, stack).Ok? {
      var next := sofar.(properties := SetProperty(sofar.properties, q.name, Compile(p, q.text, 0, stack).value),
                         required := if !q.question && !TypeAdmitsUndefined(q.text) && q.name !in sofar.required
                                     then sofar.required + [q.name] else sofar.required);
      TrappedProps(p, names, props[1..], next, stack, y);
    }
  }

  // ---- one or the other

  lemma {:induction false} PartialsKnown(p: Project, text: string, depth: nat)
    ensures PartialsIn(p, text, depth) <= p.interfaces.Keys
    decreases |text|, 1, 0
  {
    hide Classify, Smaller;
    ClassifyShrinks(p, text);
    SmallerMeans(Classify(p, text), |text|);
    KnownPartial(p, text);
    match Classify(p, text) {
      case Leaf(_) =>
      case Same(t) => PartialsKnown(p, t, depth + 1);
      case ArrayOf(t) => PartialsKnown(p, t, depth + 1);
      case RecordOf(t) => PartialsKnown(p, t, depth + 1);
      case OneOf(ts) => PartialsKnownAll(p, ts, depth + 1, |text|);
      case PartialOf(name) =>
      case Inline(fs) => PartialsKnownFields(p, fs, |text|);
    }
  }

  lemma {:induction false} PartialsKnownAll(p: Project, texts: seq<string>, depth: nat, bound: nat)
    requires forall i :: 0 <= i < |texts| ==> |texts[i]| < bound
    ensures PartialsInAll(p, texts, depth, bound) <= p.interfaces.Keys
    decreases bound, 0, |texts|
  {
    hide PartialsIn;
    if texts != [] {
      PartialsKnown(p, texts[0], depth);
      PartialsKnownAll(p, texts[1..], depth, bound);
    }
  }

  lemma {:induction false} PartialsKnownFields(p: Project, fields: seq<Field>, bound: nat)
    requires forall i :: 0 <= i < |fields| ==> |fields[i].text| < bound
    ensures PartialsInFields(p, fields, bound) <= p.interfaces.Keys
    decreases bound, 0, |fields|
  {
    hide PartialsIn;
    if fields != [] {
      PartialsKnown(p, fields[0].text, 0);
      PartialsKnownFields(p, fields[1..], bound);
    }
  }

  lemma {:induction false} PartialsOfKnown(p: Project, props: seq<Prop>)
    ensures PartialsOf(p, props) <= p.interfaces.Keys
  {
    hide PartialsIn;
    if props != [] {
      PartialsKnown(p, props[0].text, 0);
      PartialsOfKnown(p, props[1..]);
    }
  }

  /** The names ranked so far only expand names of smaller rank. */
  ghost predicate PartlyRanked(p: Project, rank: map<string, nat>) {
    && rank.Keys <= p.interfaces.Keys
    && (forall x :: x in rank ==> rank[x] < |rank|)
    && forall x, y :: x in rank && y in PartialsOf(p, p.interfaces[x]) ==> y in rank && rank[y] < rank[x]
  }

  /** Ranking the interfaces one after the other either ranks all of them or gets stuck at a
      set whose members expand each other. */
  lemma {:induction false} RankMore(p: Project, rank: map<string, nat>) returns (full: map<string, nat>, stuck: set<string>)
    requires PartlyRanked(p, rank)
    ensures if stuck == {} then Ranked(p, full) && p.interfaces.Keys <= full.Keys else Trapped(p, stuck)
    decreases p.interfaces.Keys - rank.Keys
  {
    hide PartialsOf, PartlyRanked, Ranked, Trapped;
    var rest := p.interfaces.Keys - rank.Keys;
    if x :| x in rest && PartialsOf(p, p.interfaces[x]) <= rank.Keys {
      RankOneMore(p, rank, x);
      full, stuck := RankMore(p, rank[x := |rank|]);
    } else {
      full, stuck := rank, rest;
      if rest == {} {
        FullIsRanked(p, rank);
      } else {
        StuckIsTrapped(p, rank.Keys);
      }
    }
  }

  lemma FullIsRanked(p: Project, rank: map<string, nat>)
    requires PartlyRanked(p, rank) && p.interfaces.Keys <= rank.Keys
    ensures Ranked(p, rank)
  {
    hide PartialsOf;
  }

  lemma StuckIsTrapped(p: Project, done: set<string>)
    requires forall x :: x in p.interfaces && x !in done ==> !(PartialsOf(p, p.interfaces[x]) <= done)
    ensures Trapped(p, p.interfaces.Keys - done)
  {
    hide PartialsOf;
    var rest := p.interfaces.Keys - done;
    forall x | x in rest ensures exists y :: y in rest && y in PartialsOf(p, p.interfaces[x]) {
      PartialsOfKnown(p, p.interfaces[x]);
      var y :| y in PartialsOf(p, p.interfaces[x]) && y !in done;
    }
  }

  lemma RankOneMore(p: Project, rank: map<string, nat>, x: string)
    requires PartlyRanked(p, rank) && x in p.interfaces && x !in rank
    requires PartialsOf(p, p.interfaces[x]) <= rank.Keys
    ensures PartlyRanked(p, rank[x := |rank|])
  {
    hide PartialsOf;
    var next := rank[x := |rank|];
    assert next.Keys == rank.Keys + {x};
    assert |next| == |rank| + 1;
    forall z, y | z in next && y in PartialsOf(p, p.interfaces[z]) ensures y in next && next[y] < next[z] {
      assert y in rank;
    }
  }

  /** In a trapped set the ranks would descend for ever. */
  lemma NoDescent(p: Project, rank: map<string, nat>, names: set<string>, x: string)
    requires Ranked(p, rank) && p.interfaces.Keys <= rank.Keys && Trapped(p, names) && x in names
    ensures false
    decreases rank[x]
  {
    hide PartialsOf;
    var y :| y in names && y in PartialsOf(p, p.interfaces[x]);
    NoDescent(p, rank, names, y);
  }

  ghost predicate HasRanks(p: Project) {
    exists rank: map<string, nat> :: Ranked(p, rank) && p.interfaces.Keys <= rank.Keys
  }

  ghost predicate HasTrap(p: Project) {
    exists names :: names != {} && Trapped(p, names)
  }

  /** Either ranks exist, and then every text compiles within some stack, or there are
      interfaces that reach each other through `Partial<>` without end, and never both. */
  lemma RankedOrTrapped(p: Project)
    ensures HasRanks(p) <==> !HasTrap(p)
  {
    hide Ranked, Trapped;
    var full, stuck := RankMore(p, map[]);
    if HasRanks(p) && HasTrap(p) {
      var rank: map<string, nat> :| Ranked(p, rank) && p.interfaces.Keys <= rank.Keys;
      var names :| names != {} && Trapped(p, names);
      var x :| x in names;
      NoDescent(p, rank, names, x);
    }
  }

  /** Compiling never exhausts a large enough stack when no interface reaches itself. */
  lemma TerminatesWhenRanked(p: Project, rank: map<string, nat>, text: string, depth: nat) returns (enough: nat)
    requires Ranked(p, rank) && p.interfaces.Keys <= rank.Keys
    ensures forall stack :: stack >= enough ==>
              Compile(p, text, depth, stack) == Compile(p, text, depth, enough) != StackOverflow
  {
    enough := MaxRank(rank, rank.Keys);
    PartialsKnown(p, text, depth);
    hide Ranked, Compile, PartialsIn;
    forall stack | stack >= enough
      ensures Compile(p, text, depth, stack) == Compile(p, text, depth, enough) != StackOverflow
    {
      RankedTerminates(p, rank, text, depth, enough, stack);
    }
  }

  lemma {:induction false} MaxRank(rank: map<string, nat>, names: set<string>) returns (above: nat)
    requires names <= rank.Keys
    ensures forall x :: x in names ==> rank[x] < above
  {
    if names == {} {
      above := 0;
    } else {
      var x :| x in names;
      var rest := MaxRank(rank, names - {x});
      above := if rank[x] < rest then rest else rank[x] + 1;
    }
  }
}
