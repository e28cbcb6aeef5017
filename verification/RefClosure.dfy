/** Backfilling `$defs` until no reference dangles (`resolveMissingDefs`). */
module RefClosure {
  import opened Schema

  /** Every name referred to from one of the definitions `names`. */
  function DefRefs(defs: map<string, Node>, names: set<string>): set<string>
    requires names <= defs.Keys
  {
    set d, n | d in names && n in Refs(defs[d]) :: n
  }

  /** Every name referred to from the root node or from one of the definitions. */
  function DocumentRefs(root: Node, defs: map<string, Node>): set<string> {
    Refs(root) + DefRefs(defs, defs.Keys)
  }

  /** A chain of references: it starts at a reference of the document, and every name before
      the last is declared, was not defined, and refers to the next. */
  ghost predicate RefChain(start: set<string>, defined: set<string>, decls: map<string, Node>, chain: seq<string>) {
    && chain != [] && chain[0] in start
    && forall i {:trigger chain[i]} :: 0 <= i < |chain| - 1 ==> Refers(defined, decls, chain[i], chain[i + 1])
  }

  /** Backfilling `from` brings in a reference to `to`. */
  predicate Refers(defined: set<string>, decls: map<string, Node>, from: string, to: string) {
    from !in defined && from in decls && to in Refs(decls[from])
  }

  ghost predicate Reachable(start: set<string>, defined: set<string>, decls: map<string, Node>, name: string) {
    exists chain :: RefChain(start, defined, decls, chain) && chain[|chain| - 1] == name
  }

  lemma ReachableStart(start: set<string>, defined: set<string>, decls: map<string, Node>, name: string)
    requires name in start
    ensures Reachable(start, defined, decls, name)
  {
    assert RefChain(start, defined, decls, [name]);
    assert [name][|[name]| - 1] == name;
  }

  lemma ReachableStep(start: set<string>, defined: set<string>, decls: map<string, Node>, from: string, to: string)
    requires Reachable(start, defined, decls, from) && Refers(defined, decls, from, to)
    ensures Reachable(start, defined, decls, to)
  {
    var chain :| RefChain(start, defined, decls, chain) && chain[|chain| - 1] == from;
    var longer := chain + [to];
    forall i | 0 <= i < |longer| - 1
      ensures Refers(defined, decls, longer[i], longer[i + 1])
    {
      assert longer[i] == chain[i];
      assert i < |chain| - 1 ==> longer[i + 1] == chain[i + 1];
    }
    assert RefChain(start, defined, decls, longer);
    assert longer[|longer| - 1] == to;
  }

  /** Any set of names that contains the start and is closed under backfilling contains
      everything reachable: the reachable names are the least such set. */
  lemma {:induction false} ReachableIsLeast(start: set<string>, defined: set<string>, decls: map<string, Node>,
                                            closed: set<string>, chain: seq<string>)
    requires start <= closed
    requires forall d, n :: d in closed && Refers(defined, decls, d, n) ==> n in closed
    requires RefChain(start, defined, decls, chain)
    ensures chain[|chain| - 1] in closed
    decreases |chain|
  {
    if |chain| > 1 {
      var front := chain[..|chain| - 1];
      forall i | 0 <= i < |front| - 1 ensures Refers(defined, decls, front[i], front[i + 1]) {
        assert front[i] == chain[i];
      }
      ReachableIsLeast(start, defined, decls, closed, front);
      var i := |chain| - 2;
      assert front[|front| - 1] == chain[i];
      assert Refers(defined, decls, chain[i], chain[i + 1]);
    }
  }

  /** What the passes keep: old definitions are untouched, and a name that was added is
      declared and reachable and carries its declared schema. */
  ghost predicate Sound(start: set<string>, defs0: map<string, Node>, decls: map<string, Node>, defs: map<string, Node>) {
    && defs0.Keys <= defs.Keys
    && (forall n :: n in defs0 ==> defs[n] == defs0[n])
    && (forall n :: n in defs && n !in defs0 ==>
          n in decls && defs[n] == decls[n] && Reachable(start, defs0.Keys, decls, n))
  }

  ghost predicate Missing(start: set<string>, defs0: map<string, Node>, decls: map<string, Node>, names: set<string>) {
    forall n :: n in names ==> n !in decls && n !in defs0 && Reachable(start, defs0.Keys, decls, n)
  }

  /** A reference in the document, at any moment, is reachable from the first state. */
  lemma DocumentRefsReachable(root: Node, defs0: map<string, Node>, decls: map<string, Node>, defs: map<string, Node>, n: string)
    requires Sound(DocumentRefs(root, defs0), defs0, decls, defs)
    requires n in DocumentRefs(root, defs)
    ensures Reachable(DocumentRefs(root, defs0), defs0.Keys, decls, n)
  {
    var start := DocumentRefs(root, defs0);
    if n in Refs(root) {
      ReachableStart(start, defs0.Keys, decls, n);
    } else {
      var d :| d in defs && n in Refs(defs[d]);
      if d in defs0 {
        assert n in DefRefs(defs0, defs0.Keys);
        ReachableStart(start, defs0.Keys, decls, n);
      } else {
        ReachableStep(start, defs0.Keys, decls, d, n);
      }
    }
  }

  lemma DocumentRefsGrow(root: Node, before: map<string, Node>, after: map<string, Node>)
    requires before.Keys <= after.Keys && forall n :: n in before ==> after[n] == before[n]
    ensures DocumentRefs(root, before) <= DocumentRefs(root, after)
  {
  }

  /** When a pass adds nothing, everything reachable is defined or known to be missing. */
  lemma PassWithoutAdditions(root: Node, defs0: map<string, Node>, decls: map<string, Node>, defs: map<string, Node>,
                             unresolved: set<string>, n: string)
    requires Sound(DocumentRefs(root, defs0), defs0, decls, defs)
    requires DocumentRefs(root, defs) <= defs.Keys + unresolved
    requires forall m :: m in unresolved ==> m !in decls
    requires Reachable(DocumentRefs(root, defs0), defs0.Keys, decls, n)
    ensures n in defs || n in unresolved
  {
    var start := DocumentRefs(root, defs0);
    var closed := defs.Keys + unresolved;
    forall m | m in start ensures m in closed {
      if m !in Refs(root) {
        var d :| d in defs0 && m in Refs(defs0[d]);
        assert m in DefRefs(defs, defs.Keys);
      }
    }
    forall d, m | d in closed && Refers(defs0.Keys, decls, d, m) ensures m in closed {
      assert m in DefRefs(defs, defs.Keys);
    }
    var chain :| RefChain(start, defs0.Keys, decls, chain) && chain[|chain| - 1] == n;
    ReachableIsLeast(start, defs0.Keys, decls, closed, chain);
  }

  /** In the middle of a pass that began with the definitions `before`, when the names `names` are
      still to be visited. */
  ghost predicate InPass(start: set<string>, defs0: map<string, Node>, decls: map<string, Node>, before: map<string, Node>,
                         defs: map<string, Node>, refs: set<string>, names: set<string>, unresolved: set<string>, added: bool) {
    && names <= refs
    && before.Keys <= defs.Keys
    && (forall n :: n in before ==> defs[n] == before[n])
    && Sound(start, defs0, decls, defs)
    && Missing(start, defs0, decls, unresolved)
    && refs - names <= defs.Keys + unresolved
    && unresolved <= refs
    && (if added then decls.Keys - defs.Keys < decls.Keys - before.Keys else defs == before)
  }

  lemma PassDefines(start: set<string>, defs0: map<string, Node>, decls: map<string, Node>, before: map<string, Node>,
                    defs: map<string, Node>, refs: set<string>, names: set<string>, unresolved: set<string>, added: bool, name: string)
    requires InPass(start, defs0, decls, before, defs, refs, names, unresolved, added)
    requires name in names && name !in defs && name in decls && Reachable(start, defs0.Keys, decls, name)
    ensures InPass(start, defs0, decls, before, defs[name := decls[name]], refs, names - {name}, unresolved, true)
  {
    hide Reachable;
    var next := defs[name := decls[name]];
    assert name in decls.Keys - before.Keys && name !in decls.Keys - next.Keys;
    assert decls.Keys - next.Keys <= decls.Keys - defs.Keys;
  }

  lemma PassMisses(start: set<string>, defs0: map<string, Node>, decls: map<string, Node>, before: map<string, Node>,
                   defs: map<string, Node>, refs: set<string>, names: set<string>, unresolved: set<string>, added: bool, name: string)
    requires InPass(start, defs0, decls, before, defs, refs, names, unresolved, added)
    requires name in names && name !in defs && name !in decls && Reachable(start, defs0.Keys, decls, name)
    ensures InPass(start, defs0, decls, before, defs, refs, names - {name}, unresolved + {name}, added)
  {
    hide Reachable;
  }

  lemma PassSkips(start: set<string>, defs0: map<string, Node>, decls: map<string, Node>, before: map<string, Node>,
                  defs: map<string, Node>, refs: set<string>, names: set<string>, unresolved: set<string>, added: bool, name: string)
    requires InPass(start, defs0, decls, before, defs, refs, names, unresolved, added)
    requires name in names && (name in defs || name in unresolved)
    ensures InPass(start, defs0, decls, before, defs, refs, names - {name}, unresolved, added)
  {
    hide Sound, Missing;
  }

  lemma PassBegins(start: set<string>, defs0: map<string, Node>, decls: map<string, Node>, defs: map<string, Node>,
                   refs: set<string>, unresolved: set<string>)
    requires Sound(start, defs0, decls, defs) && Missing(start, defs0, decls, unresolved) && unresolved <= refs
    ensures InPass(start, defs0, decls, defs, defs, refs, refs, unresolved, false)
  {
    hide Sound, Missing;
  }

  lemma PassEnds(root: Node, start: set<string>, defs0: map<string, Node>, decls: map<string, Node>, before: map<string, Node>,
                 defs: map<string, Node>, unresolved: set<string>, added: bool)
    requires InPass(start, defs0, decls, before, defs, DocumentRefs(root, before), {}, unresolved, added)
    ensures Sound(start, defs0, decls, defs) && Missing(start, defs0, decls, unresolved)
    ensures !added ==> defs == before && DocumentRefs(root, defs) <= defs.Keys + unresolved
    ensures unresolved <= DocumentRefs(root, defs)
    ensures added ==> decls.Keys - defs.Keys < decls.Keys - before.Keys
  {
    hide Sound, Missing, DocumentRefs;
    DocumentRefsGrow(root, before, defs);
  }

  lemma SoundStart(start: set<string>, defs0: map<string, Node>, decls: map<string, Node>)
    ensures Sound(start, defs0, decls, defs0) && Missing(start, defs0, decls, {})
  {
  }

  class SchemaDocument {
    const root: Node
    var defs: map<string, Node>

    constructor (root: Node, defs: map<string, Node>)
      ensures this.root == root && this.defs == defs
    {
      this.root, this.defs := root, defs;
    }

    /** All references of the document, gathered as one set. */
    method CollectDocumentRefs() returns (refs: set<string>)
      ensures refs == DocumentRefs(root, defs)
    {
      var acc := new NameSet();
      CollectRefTargets(root, acc);
      var names, walked := defs.Keys, {};
      while names != {}
        invariant fresh(acc)
        invariant names + walked == defs.Keys
        invariant acc.names == Refs(root) + DefRefs(defs, walked)
        decreases names
      {
        var d :| d in names;
        CollectRefTargets(defs[d], acc);
        names, walked := names - {d}, walked + {d};
      }
      assert walked == defs.Keys;
      refs := acc.names;
    }

    /** Backfills from the declarations of the project (interfaces, aliases and enums already
        turned into schemas).  `unresolved` is what the thrown error lists; the original throws
        exactly when it is not empty.  The names of a pass are visited in an arbitrary order. */
    method ResolveMissingDefs(decls: map<string, Node>) returns (unresolved: set<string>)
      modifies this`defs
      // what was defined stays as it was
      ensures old(defs.Keys) <= defs.Keys
      ensures forall n :: n in old(defs) ==> defs[n] == old(defs[n])
      // the added names are exactly the declared names that are reachable
      ensures forall n :: n !in old(defs) ==>
                (n in defs <==> n in decls && Reachable(DocumentRefs(root, old(defs)), old(defs.Keys), decls, n))
      ensures forall n :: n in defs && n !in old(defs) ==> n in decls && defs[n] == decls[n]
      // it fails on exactly the reachable names without a declaration
      ensures forall n :: n in unresolved <==>
                n !in decls && n !in old(defs)
                && Reachable(DocumentRefs(root, old(defs)), old(defs.Keys), decls, n)
      // otherwise no reference dangles
      ensures unresolved == {} <==> DocumentRefs(root, defs) <= defs.Keys
    {
      hide *;
      ghost var defs0 := defs;
      ghost var start := DocumentRefs(root, defs0);
      unresolved := {};
      var added := true;
      SoundStart(start, defs0, decls);
      while added
        invariant Sound(start, defs0, decls, defs)
        invariant Missing(start, defs0, decls, unresolved)
        invariant !added ==> DocumentRefs(root, defs) <= defs.Keys + unresolved
        invariant unresolved <= DocumentRefs(root, defs)
        decreases decls.Keys - defs.Keys, added
      {
        var refs := CollectDocumentRefs();
        forall n | n in refs ensures Reachable(start, defs0.Keys, decls, n) {
          DocumentRefsReachable(root, defs0, decls, defs, n);
        }
        PassBegins(start, defs0, decls, defs, refs, unresolved);
        added := false;
        ghost var before := defs;
        var names := refs;
        while names != {}
          invariant InPass(start, defs0, decls, before, defs, refs, names, unresolved, added)
          invariant names <= refs
          decreases names
        {
          var name :| name in names;
          if name !in defs && name !in unresolved {
            if name in decls {
              PassDefines(start, defs0, decls, before, defs, refs, names, unresolved, added, name);
              defs := defs[name := decls[name]];
              added := true;
            } else {
              PassMisses(start, defs0, decls, before, defs, refs, names, unresolved, added, name);
              unresolved := unresolved + {name};
            }
          } else {
            PassSkips(start, defs0, decls, before, defs, refs, names, unresolved, added, name);
          }
          names := names - {name};
        }
        PassEnds(root, start, defs0, decls, before, defs, unresolved, added);
      }
      Resolved(root, defs0, decls, defs, unresolved);
    }
  }

  /** What holds when a pass has added nothing. */
  lemma Resolved(root: Node, defs0: map<string, Node>, decls: map<string, Node>, defs: map<string, Node>, unresolved: set<string>)
    requires Sound(DocumentRefs(root, defs0), defs0, decls, defs)
    requires Missing(DocumentRefs(root, defs0), defs0, decls, unresolved)
    requires DocumentRefs(root, defs) <= defs.Keys + unresolved && unresolved <= DocumentRefs(root, defs)
    ensures defs0.Keys <= defs.Keys && forall n :: n in defs0 ==> defs[n] == defs0[n]
    ensures forall n :: n !in defs0 ==>
              (n in defs <==> n in decls && Reachable(DocumentRefs(root, defs0), defs0.Keys, decls, n))
    ensures forall n :: n in defs && n !in defs0 ==> n in decls && defs[n] == decls[n]
    ensures forall n :: n in unresolved <==>
              n !in decls && n !in defs0 && Reachable(DocumentRefs(root, defs0), defs0.Keys, decls, n)
    ensures unresolved == {} <==> DocumentRefs(root, defs) <= defs.Keys
  {
    hide DocumentRefs, Reachable;
    forall n | Reachable(DocumentRefs(root, defs0), defs0.Keys, decls, n) ensures n in defs || n in unresolved {
      PassWithoutAdditions(root, defs0, decls, defs, unresolved, n);
    }
    assert forall n :: n in unresolved ==> n !in defs;
  }
}
