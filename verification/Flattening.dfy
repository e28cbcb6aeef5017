/** The properties of an interface with those it inherits, as five generators list them. */
module Flattening {
  import opened JsText

  /** A declared property; the body is its type, its `?` and its documentation. */
  datatype Decl<T> = Decl(name: string, body: T)

  datatype Interface<T> = Interface(bases: seq<string>, own: seq<Decl<T>>)

  /** The inheritance graph: the interface that is found for each name. */
  type Graph<T> = map<string, Interface<T>>

  /** Ranks that fall from every interface to the bases that are found. */
  ghost predicate Acyclic<T>(g: Graph<T>, rank: map<string, nat>) {
    && (forall x :: x in g ==> x in rank)
    && forall x, i :: x in g && 0 <= i < |g[x].bases| && g[x].bases[i] in g ==> rank[g[x].bases[i]] < rank[x]
  }

  // ---- everything, with repetitions

  function All<T>(g: Graph<T>, ghost rank: map<string, nat>, name: string): seq<Decl<T>>
    requires Acyclic(g, rank) && name in g
    decreases rank[name], 1, 0
  {
    AllBases(g, rank, name, |g[name].bases|) + g[name].own
  }

  function AllBases<T>(g: Graph<T>, ghost rank: map<string, nat>, name: string, n: nat): seq<Decl<T>>
    requires Acyclic(g, rank) && name in g && n <= |g[name].bases|
    decreases rank[name], 0, n
  {
    if n == 0 then []
    else
      var base := g[name].bases[n - 1];
      AllBases(g, rank, name, n - 1) + (if base in g then All(g, rank, base) else [])
  }

  method GetAllProperties<T>(g: Graph<T>, ghost rank: map<string, nat>, name: string) returns (props: seq<Decl<T>>)
    requires Acyclic(g, rank) && name in g
    ensures props == All(g, rank, name)
    decreases rank[name]
  {
    props := [];
    var bases := g[name].bases;
    for i := 0 to |bases|
      invariant props == AllBases(g, rank, name, i)
    {
      var base := bases[i];
      if base in g {
        var inherited := GetAllProperties(g, rank, base);
        props := props + inherited;
      }
    }
    props := props + g[name].own;
  }

  // ---- first position, last content

  /** `map.set(d.name, d)`: a known name keeps its position. */
  function Put<T>(out: seq<Decl<T>>, d: Decl<T>): seq<Decl<T>> {
    if out == [] then [d] else if out[0].name == d.name then [d] + out[1..] else [out[0]] + Put(out[1..], d)
  }

  function PutAll<T>(out: seq<Decl<T>>, props: seq<Decl<T>>): seq<Decl<T>>
    decreases |props|
  {
    if props == [] then out else PutAll(Put(out, props[0]), props[1..])
  }

  function Dedupe<T>(props: seq<Decl<T>>): seq<Decl<T>> {
    PutAll([], props)
  }

  /** The schema generator removes repetitions at every level of the hierarchy. */
  function Levelwise<T>(g: Graph<T>, ghost rank: map<string, nat>, name: string): seq<Decl<T>>
    requires Acyclic(g, rank) && name in g
    decreases rank[name], 1, 0
  {
    Dedupe(LevelwiseBases(g, rank, name, |g[name].bases|) + g[name].own)
  }

  function LevelwiseBases<T>(g: Graph<T>, ghost rank: map<string, nat>, name: string, n: nat): seq<Decl<T>>
    requires Acyclic(g, rank) && name in g && n <= |g[name].bases|
    decreases rank[name], 0, n
  {
    if n == 0 then []
    else
      var base := g[name].bases[n - 1];
      LevelwiseBases(g, rank, name, n - 1) + (if base in g then Levelwise(g, rank, base) else [])
  }

  method GetAllInterfaceProperties<T>(g: Graph<T>, ghost rank: map<string, nat>, name: string) returns (r: seq<Decl<T>>)
    requires Acyclic(g, rank) && name in g
    ensures r == Levelwise(g, rank, name)
    decreases rank[name]
  {
    var props := [];
    var bases := g[name].bases;
    for i := 0 to |bases|
      invariant props == LevelwiseBases(g, rank, name, i)
    {
      var base := bases[i];
      if base in g {
        var inherited := GetAllInterfaceProperties(g, rank, base);
        props := props + inherited;
      }
    }
    props := props + g[name].own;
    var byName := [];
    for i := 0 to |props|
      invariant PutAll(byName, props[i..]) == Dedupe(props)
    {
      assert props[i..][0] == props[i] && props[i..][1..] == props[i + 1..];
      byName := Put(byName, props[i]);
    }
    return byName;
  }

  // ---- removing repetitions early or late

  predicate Named<T>(props: seq<Decl<T>>, name: string) {
    props != [] && (props[0].name == name || Named(props[1..], name))
  }

  predicate DistinctNames<T>(props: seq<Decl<T>>) {
    props == [] || (!Named(props[1..], props[0].name) && DistinctNames(props[1..]))
  }

  lemma {:induction false} PutNames<T>(out: seq<Decl<T>>, d: Decl<T>, name: string)
    ensures Named(Put(out, d), name) <==> Named(out, name) || name == d.name
  {
    if out == [] {
      assert [d][1..] == [];
    } else {
      var rest := Put(out[1..], d);
      assert ([d] + out[1..])[1..] == out[1..] && ([out[0]] + rest)[1..] == rest;
      PutNames(out[1..], d, name);
    }
  }

  lemma {:induction false} PutDistinct<T>(out: seq<Decl<T>>, d: Decl<T>)
    requires DistinctNames(out)
    ensures DistinctNames(Put(out, d))
  {
    if out == [] {
      assert [d][1..] == [];
    } else {
      var rest := Put(out[1..], d);
      assert ([d] + out[1..])[1..] == out[1..] && ([out[0]] + rest)[1..] == rest;
      PutDistinct(out[1..], d);
      PutNames(out[1..], d, out[0].name);
    }
  }

  /** Setting a name twice is setting it once. */
  lemma {:induction false} PutTwice<T>(out: seq<Decl<T>>, d: Decl<T>, e: Decl<T>)
    requires d.name == e.name
    ensures Put(Put(out, d), e) == Put(out, e)
  {
    if out == [] {
      assert [d][1..] == [];
    } else {
      var rest := Put(out[1..], d);
      assert ([d] + out[1..])[1..] == out[1..] && ([out[0]] + rest)[1..] == rest;
      PutTwice(out[1..], d, e);
    }
  }

  /** Setting a name that is there can wait. */
  lemma {:induction false} PutLater<T>(out: seq<Decl<T>>, d: Decl<T>, e: Decl<T>)
    requires d.name != e.name && Named(out, d.name)
    ensures Put(Put(out, d), e) == Put(Put(out, e), d)
  {
    var withD, withE := Put(out[1..], d), Put(out[1..], e);
    assert ([d] + out[1..])[1..] == out[1..] && ([e] + out[1..])[1..] == out[1..];
    assert ([out[0]] + withD)[1..] == withD && ([out[0]] + withE)[1..] == withE;
    if out[0].name != d.name && out[0].name != e.name {
      PutLater(out[1..], d, e);
    } else if out[0].name == d.name {
      assert ([d] + withE)[1..] == withE;
    } else {
      assert ([e] + withD)[1..] == withD;
    }
  }

  lemma {:induction false} PutAfterAll<T>(out: seq<Decl<T>>, props: seq<Decl<T>>, d: Decl<T>)
    requires Named(out, d.name) && !Named(props, d.name)
    ensures PutAll(Put(out, d), props) == Put(PutAll(out, props), d)
    decreases |props|
  {
    if props != [] {
      PutLater(out, d, props[0]);
      PutNames(out, props[0], d.name);
      PutAfterAll(Put(out, props[0]), props[1..], d);
    }
  }

  lemma {:induction false} PutAllPut<T>(out: seq<Decl<T>>, props: seq<Decl<T>>, d: Decl<T>)
    requires DistinctNames(props)
    ensures PutAll(out, Put(props, d)) == Put(PutAll(out, props), d)
    decreases |props|
  {
    if props == [] {
      assert [d][1..] == [];
    } else if props[0].name == d.name {
      assert ([d] + props[1..])[1..] == props[1..];
      PutTwice(out, props[0], d);
      PutNames(out, props[0], d.name);
      PutAfterAll(Put(out, props[0]), props[1..], d);
    } else {
      var rest := Put(props[1..], d);
      assert ([props[0]] + rest)[1..] == rest;
      PutAllPut(Put(out, props[0]), props[1..], d);
    }
  }

  lemma {:induction false} PutAllConcat<T>(out: seq<Decl<T>>, a: seq<Decl<T>>, b: seq<Decl<T>>)
    ensures PutAll(out, a + b) == PutAll(PutAll(out, a), b)
    decreases |a|
  {
    if a == [] {
      assert a + b == b;
    } else {
      assert (a + b)[1..] == a[1..] + b;
      PutAllConcat(Put(out, a[0]), a[1..], b);
    }
  }

  /** Adding what has been put together is adding its parts one by one. */
  lemma {:induction false} PutAllOfPutAll<T>(out: seq<Decl<T>>, sofar: seq<Decl<T>>, props: seq<Decl<T>>)
    requires DistinctNames(sofar)
    ensures PutAll(out, PutAll(sofar, props)) == PutAll(PutAll(out, sofar), props)
    decreases |props|
  {
    if props != [] {
      PutAllPut(out, sofar, props[0]);
      PutDistinct(sofar, props[0]);
      PutAllOfPutAll(out, Put(sofar, props[0]), props[1..]);
    }
  }

  lemma DedupeInside<T>(a: seq<Decl<T>>, b: seq<Decl<T>>)
    ensures PutAll(a, Dedupe(b)) == PutAll(a, b)
  {
    PutAllOfPutAll(a, [], b);
  }

  /** Removing repetitions at every level gives what removing them once at the end gives. */
  lemma {:induction false} LevelwiseIsDedupe<T>(g: Graph<T>, rank: map<string, nat>, name: string)
    requires Acyclic(g, rank) && name in g
    ensures Levelwise(g, rank, name) == Dedupe(All(g, rank, name))
    decreases rank[name], 1, 0
  {
    hide Dedupe;
    var n := |g[name].bases|;
    LevelwiseBasesDedupe(g, rank, name, n);
    DedupeConcat(LevelwiseBases(g, rank, name, n), g[name].own);
    DedupeConcat(AllBases(g, rank, name, n), g[name].own);
  }

  lemma DedupeConcat<T>(a: seq<Decl<T>>, b: seq<Decl<T>>)
    ensures Dedupe(a + b) == PutAll(Dedupe(a), b)
  {
    PutAllConcat([], a, b);
  }

  lemma {:induction false} LevelwiseBasesDedupe<T>(g: Graph<T>, rank: map<string, nat>, name: string, n: nat)
    requires Acyclic(g, rank) && name in g && n <= |g[name].bases|
    ensures Dedupe(LevelwiseBases(g, rank, name, n)) == Dedupe(AllBases(g, rank, name, n))
    decreases rank[name], 0, n
  {
    hide Dedupe, Levelwise, All;
    if n > 0 {
      LevelwiseBasesDedupe(g, rank, name, n - 1);
      var base := g[name].bases[n - 1];
      var late, early := AllBases(g, rank, name, n - 1), LevelwiseBases(g, rank, name, n - 1);
      if base in g {
        LevelwiseIsDedupe(g, rank, base);
        DedupeConcat(late, All(g, rank, base));
        DedupeConcat(early, Levelwise(g, rank, base));
        DedupeInside(Dedupe(early), All(g, rank, base));
      } else {
        assert late + [] == late && early + [] == early;
      }
    }
  }

  // ---- the other generators

  /** Later declarations of a name are dropped. */
  function FirstWins<T>(props: seq<Decl<T>>, seen: set<string>): seq<Decl<T>> {
    if props == [] then []
    else if props[0].name in seen then FirstWins(props[1..], seen)
    else [props[0]] + FirstWins(props[1..], seen + {props[0].name})
  }

  /** `extractProps` of the Go, Rust, Swift and Kotlin generators. */
  method ExtractFirst<T>(allProps: seq<Decl<T>>) returns (result: seq<Decl<T>>)
    ensures result == FirstWins(allProps, {})
  {
    hide FirstWins;
    var seen: set<string> := {};
    result := [];
    FirstWinsNone(allProps);
    for i := 0 to |allProps|
      invariant result + FirstWins(allProps[i..], seen) == FirstWins(allProps, {})
    {
      FirstWinsStep(allProps, i, seen);
      if allProps[i].name in seen {
        continue;
      }
      ConcatAssoc(result, [allProps[i]], FirstWins(allProps[i + 1..], seen + {allProps[i].name}));
      seen := seen + {allProps[i].name};
      result := result + [allProps[i]];
    }
  }

  lemma FirstWinsNone<T>(props: seq<Decl<T>>)
    ensures [] + FirstWins(props[0..], {}) == FirstWins(props, {})
    ensures forall seen :: FirstWins(props[|props|..], seen) == []
  {
    assert props[0..] == props;
  }

  lemma FirstWinsStep<T>(props: seq<Decl<T>>, i: nat, seen: set<string>)
    requires i < |props|
    ensures FirstWins(props[i..], seen)
         == if props[i].name in seen then FirstWins(props[i + 1..], seen)
            else [props[i]] + FirstWins(props[i + 1..], seen + {props[i].name})
  {
    assert props[i..][1..] == props[i + 1..];
  }

  /** The first and the last declaration of a name. */
  function First<T>(props: seq<Decl<T>>, name: string): Decl<T>
    requires Named(props, name)
  {
    if props[0].name == name then props[0] else First(props[1..], name)
  }

  function Last<T>(props: seq<Decl<T>>, name: string): Decl<T>
    requires Named(props, name)
  {
    if Named(props[1..], name) then Last(props[1..], name) else props[0]
  }

  lemma {:induction false} NamedAt<T>(props: seq<Decl<T>>, i: nat)
    requires i < |props|
    ensures Named(props, props[i].name)
  {
    if i > 0 {
      NamedAt(props[1..], i - 1);
    }
  }

  /** `First` and `Last` are the declarations with no other of the name before or behind them. */
  lemma {:induction false} FirstExactly<T>(props: seq<Decl<T>>, i: nat)
    requires i < |props| && forall j :: 0 <= j < i ==> props[j].name != props[i].name
    ensures Named(props, props[i].name) && First(props, props[i].name) == props[i]
  {
    NamedAt(props, i);
    if i > 0 {
      FirstExactly(props[1..], i - 1);
    }
  }

  lemma {:induction false} LastExactly<T>(props: seq<Decl<T>>, i: nat)
    requires i < |props| && forall j :: i < j < |props| ==> props[j].name != props[i].name
    ensures Named(props, props[i].name) && Last(props, props[i].name) == props[i]
  {
    NamedAt(props, i);
    if i > 0 {
      LastExactly(props[1..], i - 1);
    } else {
      assert forall k :: 0 <= k < |props| - 1 ==> props[1..][k] == props[k + 1];
      NamedSomewhere(props[1..], props[0].name);
    }
  }

  lemma {:induction false} NamedSomewhere<T>(props: seq<Decl<T>>, name: string)
    ensures Named(props, name) ==> exists k :: 0 <= k < |props| && props[k].name == name
  {
    if props != [] {
      NamedSomewhere(props[1..], name);
      assert forall k :: 0 <= k < |props| - 1 ==> props[1..][k] == props[k + 1];
    }
  }

  /** The names in the order in which they are first declared. */
  function Order<T>(props: seq<Decl<T>>, seen: set<string>): seq<string> {
    if props == [] then []
    else if props[0].name in seen then Order(props[1..], seen)
    else [props[0].name] + Order(props[1..], seen + {props[0].name})
  }

  lemma {:induction false} OrderNames<T>(props: seq<Decl<T>>, seen: set<string>, name: string)
    ensures name in Order(props, seen) <==> Named(props, name) && name !in seen
  {
    if props != [] {
      OrderNames(props[1..], seen, name);
      OrderNames(props[1..], seen + {props[0].name}, name);
    }
  }

  /** First-wins keeps, for every name in order, its first declaration. */
  lemma {:induction false} FirstWinsExactly<T>(props: seq<Decl<T>>, seen: set<string>)
    ensures (var names := Order(props, seen); var out := FirstWins(props, seen);
             |out| == |names|
             && forall i :: 0 <= i < |names| ==> Named(props, names[i]) && out[i] == First(props, names[i]))
  {
    if props != [] {
      var next := if props[0].name in seen then seen else seen + {props[0].name};
      FirstWinsExactly(props[1..], next);
      var names := Order(props[1..], next);
      forall i | 0 <= i < |names| ensures Named(props, names[i]) && First(props, names[i]) == First(props[1..], names[i]) {
        OrderNames(props[1..], next, names[i]);
        assert names[i] in names;
      }
    }
  }

  /** The last declaration of every name of `allProps`. */
  ghost predicate MostDerived<T>(m: map<string, Decl<T>>, allProps: seq<Decl<T>>) {
    forall name :: (name in m <==> Named(allProps, name)) && (name in m ==> m[name] == Last(allProps, name))
  }

  lemma {:induction false} NamedSnoc<T>(props: seq<Decl<T>>, d: Decl<T>, name: string)
    ensures Named(props + [d], name) <==> Named(props, name) || name == d.name
    ensures Named(props + [d], name) ==> Last(props + [d], name) == if name == d.name then d else Last(props, name)
  {
    if props == [] {
      assert (props + [d])[1..] == [];
    } else {
      assert (props + [d])[1..] == props[1..] + [d];
      NamedSnoc(props[1..], d, name);
    }
  }

  /** What the C# generator keeps: for every name in order, the last declaration. */
  function LastAt<T>(props: seq<Decl<T>>, names: seq<string>): seq<Decl<T>>
    requires forall i :: 0 <= i < |names| ==> Named(props, names[i])
  {
    if names == [] then [] else [Last(props, names[0])] + LastAt(props, names[1..])
  }

  lemma {:induction false} OrderNoRepeats<T>(props: seq<Decl<T>>, seen: set<string>)
    ensures NoRepeats(Order(props, seen))
  {
    if props != [] {
      if props[0].name in seen {
        OrderNoRepeats(props[1..], seen);
      } else {
        var rest := Order(props[1..], seen + {props[0].name});
        OrderNoRepeats(props[1..], seen + {props[0].name});
        OrderNames(props[1..], seen + {props[0].name}, props[0].name);
        assert ([props[0].name] + rest)[1..] == rest;
      }
    }
  }

  lemma {:induction false} OrderSnoc<T>(props: seq<Decl<T>>, d: Decl<T>, seen: set<string>)
    ensures Order(props + [d], seen) == Order(props, seen) + (if Named(props, d.name) || d.name in seen then [] else [d.name])
  {
    if props == [] {
      assert (props + [d])[1..] == [];
    } else {
      assert (props + [d])[1..] == props[1..] + [d];
      OrderSnoc(props[1..], d, if props[0].name in seen then seen else seen + {props[0].name});
    }
  }

  ghost predicate AllNamed<T>(props: seq<Decl<T>>, names: seq<string>) {
    forall i :: 0 <= i < |names| ==> Named(props, names[i])
  }

  lemma OrderAllNamed<T>(props: seq<Decl<T>>, seen: set<string>)
    ensures AllNamed(props, Order(props, seen))
  {
    var names := Order(props, seen);
    forall i | 0 <= i < |names| ensures Named(props, names[i]) {
      assert names[i] in names;
      OrderNames(props, seen, names[i]);
    }
  }

  lemma {:induction false} LastName<T>(props: seq<Decl<T>>, name: string)
    requires Named(props, name)
    ensures Last(props, name).name == name
  {
    if Named(props[1..], name) {
      LastName(props[1..], name);
    }
  }

  /** A later declaration of another name changes nothing. */
  lemma {:induction false} LastAtOthers<T>(props: seq<Decl<T>>, names: seq<string>, d: Decl<T>)
    requires AllNamed(props, names) && d.name !in names
    ensures AllNamed(props + [d], names) && LastAt(props + [d], names) == LastAt(props, names)
  {
    hide Named, Last;
    forall i | 0 <= i < |names| ensures Named(props + [d], names[i]) {
      NamedSnoc(props, d, names[i]);
    }
    if names != [] {
      NamedSnoc(props, d, names[0]);
      assert names[0] in names;
      LastAtOthers(props, names[1..], d);
    }
  }

  lemma {:induction false} PutOnLast<T>(props: seq<Decl<T>>, names: seq<string>, d: Decl<T>)
    requires AllNamed(props, names) && NoRepeats(names)
    ensures (var more := if d.name in names then names else names + [d.name];
             AllNamed(props + [d], more) && Put(LastAt(props, names), d) == LastAt(props + [d], more))
  {
    hide Named, Last;
    var more := if d.name in names then names else names + [d.name];
    forall i | 0 <= i < |more| ensures Named(props + [d], more[i]) {
      assert i < |names| ==> more[i] == names[i];
      NamedSnoc(props, d, more[i]);
    }
    if names == [] {
      NamedSnoc(props, d, d.name);
      assert more[1..] == [];
    } else {
      var rest := LastAt(props, names[1..]);
      LastName(props, names[0]);
      NamedSnoc(props, d, names[0]);
      assert LastAt(props, names)[1..] == rest;
      if names[0] == d.name {
        LastAtOthers(props, names[1..], d);
      } else {
        PutOnLast(props, names[1..], d);
        assert names[0] == more[0];
        assert more[1..] == if d.name in names[1..] then names[1..] else names[1..] + [d.name];
      }
    }
  }

  /** Setting all properties one after the other keeps every name where it is first declared,
      with its last declaration. */
  lemma {:induction false} DedupeExactly<T>(props: seq<Decl<T>>)
    ensures AllNamed(props, Order(props, {})) && Dedupe(props) == LastAt(props, Order(props, {}))
    decreases |props|
  {
    OrderAllNamed(props, {});
    if props != [] {
      var front, d := props[..|props| - 1], props[|props| - 1];
      assert props == front + [d];
      hide Named, Last, Order, LastAt, Put, PutAll;
      DedupeExactly(front);
      DedupeConcat(front, [d]);
      PutOne(Dedupe(front), d);
      OrderSnoc(front, d, {});
      OrderNoRepeats(front, {});
      OrderNames(front, {}, d.name);
      PutOnLast(front, Order(front, {}), d);
      assert Order(front, {}) + [] == Order(front, {});
    } else {
      assert Dedupe(props) == [];
    }
  }

  lemma PutOne<T>(out: seq<Decl<T>>, d: Decl<T>)
    ensures PutAll(out, [d]) == Put(out, d)
  {
    assert [d][1..] == [];
  }

  /** `extractProps` of the C# generator. */
  method ExtractMostDerived<T>(allProps: seq<Decl<T>>) returns (result: seq<Decl<T>>)
    ensures result == Dedupe(allProps)
  {
    hide Named, Last, LastAt, Dedupe, Order;
    var seen: set<string> := {};
    result := [];
    var mostDerived: map<string, Decl<T>> := map[];
    NothingDerived(mostDerived);
    for i := 0 to |allProps|
      invariant MostDerived(mostDerived, allProps[..i])
    {
      assert allProps[..i + 1] == allProps[..i] + [allProps[i]];
      DerivedSnoc(mostDerived, allProps[..i], allProps[i]);
      mostDerived := mostDerived[allProps[i].name := allProps[i]];
    }
    assert allProps[..|allProps|] == allProps;
    RestNamed(allProps, 0, seen);
    assert allProps[0..] == allProps;
    assert [] + LastAt(allProps, Order(allProps, {})) == LastAt(allProps, Order(allProps, {}));
    for i := 0 to |allProps|
      invariant AllNamed(allProps, Order(allProps[i..], seen)) && AllNamed(allProps, Order(allProps, {}))
      invariant result + LastAt(allProps, Order(allProps[i..], seen)) == LastAt(allProps, Order(allProps, {}))
    {
      var declared := allProps[i];
      OrderStep(allProps, i, seen);
      if declared.name in seen {
        continue;
      }
      RestNamed(allProps, i + 1, seen + {declared.name});
      LastAtCons(allProps, declared.name, Order(allProps[i + 1..], seen + {declared.name}));
      seen := seen + {declared.name};
      var p := if declared.name in mostDerived then mostDerived[declared.name] else declared;
      result := result + [p];
    }
    DedupeExactly(allProps);
    OrderNone(allProps, seen);
  }

  lemma NothingDerived<T>(m: map<string, Decl<T>>)
    requires m == map[]
    ensures MostDerived(m, [])
  {
  }

  lemma DerivedSnoc<T>(m: map<string, Decl<T>>, props: seq<Decl<T>>, d: Decl<T>)
    requires MostDerived(m, props)
    ensures MostDerived(m[d.name := d], props + [d])
  {
    hide Named, Last;
    forall name ensures (name in m[d.name := d] <==> Named(props + [d], name))
                        && (name in m[d.name := d] ==> m[d.name := d][name] == Last(props + [d], name)) {
      NamedSnoc(props, d, name);
    }
  }

  lemma {:induction false} NamedLater<T>(props: seq<Decl<T>>, i: nat, name: string)
    requires i <= |props| && Named(props[i..], name)
    ensures Named(props, name)
  {
    if i == 0 {
      assert props[0..] == props;
    } else {
      assert props[1..][i - 1..] == props[i..];
      NamedLater(props[1..], i - 1, name);
    }
  }

  lemma RestNamed<T>(props: seq<Decl<T>>, i: nat, seen: set<string>)
    requires i <= |props|
    ensures AllNamed(props, Order(props[i..], seen))
  {
    hide Named, Order;
    OrderAllNamed(props[i..], seen);
    var names := Order(props[i..], seen);
    forall k | 0 <= k < |names| ensures Named(props, names[k]) {
      NamedLater(props, i, names[k]);
    }
  }

  lemma OrderStep<T>(props: seq<Decl<T>>, i: nat, seen: set<string>)
    requires i < |props|
    ensures Order(props[i..], seen)
         == if props[i].name in seen then Order(props[i + 1..], seen)
            else [props[i].name] + Order(props[i + 1..], seen + {props[i].name})
  {
    assert props[i..][1..] == props[i + 1..];
  }

  lemma OrderNone<T>(props: seq<Decl<T>>, seen: set<string>)
    ensures Order(props[|props|..], seen) == [] && LastAt(props, []) == []
  {
  }

  lemma LastAtCons<T>(props: seq<Decl<T>>, name: string, names: seq<string>)
    requires AllNamed(props, [name] + names)
    ensures Named(props, name) && AllNamed(props, names)
    ensures LastAt(props, [name] + names) == [Last(props, name)] + LastAt(props, names)
  {
    hide Named, Last;
    var all := [name] + names;
    assert all[0] == name && all[1..] == names;
  }

  // ---- how the generators agree

  /** C# and the JSON Schema list the same properties for every interface. */
  lemma SchemaMatchesCSharp<T>(g: Graph<T>, rank: map<string, nat>, name: string)
    requires Acyclic(g, rank) && name in g
    ensures (var all := All(g, rank, name);
             && AllNamed(all, Order(all, {}))
             && Levelwise(g, rank, name) == Dedupe(all) == LastAt(all, Order(all, {})))
  {
    LevelwiseIsDedupe(g, rank, name);
    DedupeExactly(All(g, rank, name));
    hide *;
  }

  lemma {:induction false} LastAtIndex<T>(props: seq<Decl<T>>, names: seq<string>)
    requires AllNamed(props, names)
    ensures |LastAt(props, names)| == |names|
    ensures forall i :: 0 <= i < |names| ==> LastAt(props, names)[i] == Last(props, names[i])
  {
    if names != [] {
      LastAtIndex(props, names[1..]);
    }
  }

  /** The other four list the same names in the same order, and differ from the schema exactly
      where the last declaration of a name differs from the first. */
  lemma DifferOnlyWhereRedeclared<T>(props: seq<Decl<T>>)
    ensures (var names := Order(props, {}); var first := FirstWins(props, {}); var last := Dedupe(props);
             && |first| == |last| == |names| && AllNamed(props, names)
             && forall i :: 0 <= i < |names| ==>
                  && first[i].name == last[i].name == names[i]
                  && (first[i] == last[i] <==> First(props, names[i]) == Last(props, names[i])))
  {
    hide Named, Last, First, Order, LastAt, FirstWins, Dedupe;
    var names := Order(props, {});
    FirstWinsExactly(props, {});
    DedupeExactly(props);
    LastAtIndex(props, names);
    forall i | 0 <= i < |names| ensures First(props, names[i]).name == names[i] && Last(props, names[i]).name == names[i] {
      FirstName(props, names[i]);
      LastName(props, names[i]);
    }
  }

  lemma {:induction false} FirstName<T>(props: seq<Decl<T>>, name: string)
    requires Named(props, name)
    ensures First(props, name).name == name
  {
    if props[0].name != name {
      FirstName(props[1..], name);
    }
  }
}
