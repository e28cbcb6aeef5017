/** Host-side version negotiation, as the five client generators emit it.  One declarative
    outcome is defined; each emitted loop is proved to produce it. */
module Negotiation {
  import opened JsText
  import opened Version

  datatype Outcome =
    | Selected(version: string)
    | NoneSupported
    | Malformed(version: string)

  // ---- precedence and caret ranges

  /** SemVer section 11: components are compared left to right. */
  predicate Below(a: Triple, b: Triple) {
    || a.major < b.major
    || (a.major == b.major && a.minor < b.minor)
    || (a.major == b.major && a.minor == b.minor && a.patch < b.patch)
  }

  /** The first version that no longer is caret-compatible with `b`: the leftmost non-zero
      component is bumped; for 0.0.p only the patch itself is compatible. */
  function CaretEnd(b: Triple): Triple {
    if b.major > 0 then Triple(b.major + 1, 0, 0)
    else if b.minor > 0 then Triple(0, b.minor + 1, 0)
    else Triple(0, 0, b.patch + 1)
  }

  predicate InCaretRange(b: Triple, v: Triple) {
    !Below(v, b) && Below(v, CaretEnd(b))
  }

  /** The test the emitted code makes, with `order` its own comparison `v >= b`. */
  predicate CaretTest(b: Triple, v: Triple, notBelow: bool) {
    && v.major == b.major
    && (v.major > 0 || v.minor == b.minor)
    && (v.major > 0 || v.minor > 0 || v.patch == b.patch)
    && notBelow
  }

  /** The emitted equality tests on leading components describe the half-open interval. */
  lemma CaretTestIsRange(b: Triple, v: Triple)
    ensures CaretTest(b, v, !Below(v, b)) <==> InCaretRange(b, v)
  {
  }

  // ---- the outcome

  predicate WellFormed(limit: nat, version: string) {
    Parse(limit, version).Some?
  }

  function Parts(limit: nat, version: string): Triple
    requires WellFormed(limit, version)
  {
    Parse(limit, version).value
  }

  predicate AllWellFormed(limit: nat, versions: seq<string>) {
    forall i :: 0 <= i < |versions| ==> WellFormed(limit, versions[i])
  }

  /** The version lies in the caret range of some supported baseline. */
  ghost predicate Accepted(limit: nat, supported: seq<string>, version: string)
    requires AllWellFormed(limit, supported) && WellFormed(limit, version)
  {
    exists k :: 0 <= k < |supported| && InCaretRange(Parts(limit, supported[k]), Parts(limit, version))
  }

  /** `version` is the first string of `versions` that does not parse. */
  ghost predicate FirstMalformed(limit: nat, versions: seq<string>, version: string) {
    exists i :: 0 <= i < |versions| && versions[i] == version
      && !WellFormed(limit, version) && AllWellFormed(limit, versions[..i])
  }

  /** The result of negotiation: the first malformed string if there is one; otherwise the
      greatest offered version in the range of a baseline; otherwise nothing. */
  ghost predicate IsOutcome(limit: nat, supported: seq<string>, offered: seq<string>, r: Outcome) {
    match r
    case Malformed(v) => FirstMalformed(limit, supported + offered, v)
    case NoneSupported =>
      && AllWellFormed(limit, supported) && AllWellFormed(limit, offered)
      && forall i :: 0 <= i < |offered| ==> !Accepted(limit, supported, offered[i])
    case Selected(v) =>
      && AllWellFormed(limit, supported) && AllWellFormed(limit, offered)
      && v in offered && WellFormed(limit, v) && Accepted(limit, supported, v)
      && forall i :: 0 <= i < |offered| && Accepted(limit, supported, offered[i])
           ==> !Below(Parts(limit, v), Parts(limit, offered[i]))
  }

  /** The outcome is unique, so any two loops that produce an outcome agree. */
  lemma OutcomeUnique(limit: nat, supported: seq<string>, offered: seq<string>, r1: Outcome, r2: Outcome)
    requires IsOutcome(limit, supported, offered, r1) && IsOutcome(limit, supported, offered, r2)
    ensures r1 == r2
  {
    OutcomeOrderFree(limit, supported, offered, offered, r1, r2);
    if r1.Malformed? {
      FirstMalformedUnique(limit, supported + offered, r1.version, r2.version);
    }
  }

  lemma FirstMalformedUnique(limit: nat, versions: seq<string>, v: string, w: string)
    requires FirstMalformed(limit, versions, v) && FirstMalformed(limit, versions, w)
    ensures v == w
  {
    var i :| 0 <= i < |versions| && versions[i] == v && !WellFormed(limit, v) && AllWellFormed(limit, versions[..i]);
    var j :| 0 <= j < |versions| && versions[j] == w && !WellFormed(limit, w) && AllWellFormed(limit, versions[..j]);
    assert forall k :: 0 <= k < i ==> versions[..i][k] == versions[k];
    assert forall k :: 0 <= k < j ==> versions[..j][k] == versions[k];
  }

  /** The order (and the repetition) of the offers does not matter: two offer lists with the
      same members are rejected together or give the same answer. */
  lemma OutcomeOrderFree(limit: nat, supported: seq<string>, offered1: seq<string>, offered2: seq<string>,
                         r1: Outcome, r2: Outcome)
    requires forall v :: v in offered1 <==> v in offered2
    requires IsOutcome(limit, supported, offered1, r1) && IsOutcome(limit, supported, offered2, r2)
    ensures r1.Malformed? <==> r2.Malformed?
    ensures !r1.Malformed? ==> r1 == r2
  {
    assert AllWellFormed(limit, offered1) <==> AllWellFormed(limit, offered2) by {
      SameMembersWellFormed(limit, offered1, offered2);
      SameMembersWellFormed(limit, offered2, offered1);
    }
    AllWellFormedConcat(limit, supported, offered1);
    AllWellFormedConcat(limit, supported, offered2);
    if r1.Selected? {
      assert r1.version in offered2;
    }
    if r2.Selected? {
      assert r2.version in offered1;
    }
    if r1.Selected? && r2.Selected? {
      ParseInjective(limit, limit, r1.version, r2.version);
    }
  }

  lemma SameMembersWellFormed(limit: nat, a: seq<string>, b: seq<string>)
    requires forall v :: v in b ==> v in a
    ensures AllWellFormed(limit, a) ==> AllWellFormed(limit, b)
  {
    if AllWellFormed(limit, a) {
      forall i | 0 <= i < |b| ensures WellFormed(limit, b[i]) {
        assert b[i] in a;
      }
    }
  }

  lemma AllWellFormedConcat(limit: nat, a: seq<string>, b: seq<string>)
    ensures AllWellFormed(limit, a + b) <==> AllWellFormed(limit, a) && AllWellFormed(limit, b)
  {
    var c := a + b;
    if AllWellFormed(limit, c) {
      assert forall i :: 0 <= i < |a| ==> a[i] == c[i];
      assert forall i :: 0 <= i < |b| ==> b[i] == c[|a| + i];
    }
  }

  /** One malformed offer fails the whole call, and only a malformed string does. */
  lemma MalformedFailsAll(limit: nat, supported: seq<string>, offered: seq<string>, r: Outcome)
    requires IsOutcome(limit, supported, offered, r)
    ensures r.Malformed? <==> exists v :: (v in supported || v in offered) && !WellFormed(limit, v)
  {
    AllWellFormedConcat(limit, supported, offered);
    if r.Malformed? {
      assert r.version in supported + offered;
    } else if exists v :: (v in supported || v in offered) && !WellFormed(limit, v) {
      assert false;
    }
  }

  /** The 63-bit and the 64-bit clients give the same outcome exactly when the first string
      too big for the signed type (if any) is malformed for the unsigned one as well. */
  lemma WidthsAgreeExactly(supported: seq<string>, offered: seq<string>, narrow: Outcome, wide: Outcome)
    requires IsOutcome(I64, supported, offered, narrow) && IsOutcome(U64, supported, offered, wide)
    ensures narrow == wide
       <==> forall v :: FirstMalformed(I64, supported + offered, v) ==> !WellFormed(U64, v)
  {
    var all := supported + offered;
    AllWellFormedConcat(I64, supported, offered);
    AllWellFormedConcat(U64, supported, offered);
    if narrow.Malformed? {
      var v := narrow.version;
      if !WellFormed(U64, v) {
        var i :| 0 <= i < |all| && all[i] == v && !WellFormed(I64, v) && AllWellFormed(I64, all[..i]);
        forall k | 0 <= k < i ensures WellFormed(U64, all[..i][k]) {
          ParseMonotone(I64, U64, all[..i][k]);
        }
        assert FirstMalformed(U64, all, v);
        OutcomeUnique(U64, supported, offered, wide, Malformed(v));
        forall w | FirstMalformed(I64, all, w) ensures w == v {
          FirstMalformedUnique(I64, all, v, w);
        }
      }
    } else {
      forall k | 0 <= k < |all| ensures Parse(U64, all[k]) == Parse(I64, all[k]) {
        assert WellFormed(I64, all[k]);
        ParseMonotone(I64, U64, all[k]);
      }
      assert forall k :: 0 <= k < |supported| ==> supported[k] == all[k];
      assert forall k :: 0 <= k < |offered| ==> offered[k] == all[|supported| + k];
      forall v | FirstMalformed(I64, all, v) ensures false {
      }
      OutcomeTransfers(supported, offered, narrow);
      OutcomeUnique(U64, supported, offered, narrow, wide);
    }
  }

  lemma OutcomeTransfers(supported: seq<string>, offered: seq<string>, r: Outcome)
    requires IsOutcome(I64, supported, offered, r) && !r.Malformed?
    requires forall k :: 0 <= k < |supported| ==> Parse(U64, supported[k]) == Parse(I64, supported[k])
    requires forall k :: 0 <= k < |offered| ==> Parse(U64, offered[k]) == Parse(I64, offered[k])
    ensures IsOutcome(U64, supported, offered, r)
  {
    forall i | 0 <= i < |offered|
      ensures Accepted(U64, supported, offered[i]) <==> Accepted(I64, supported, offered[i])
    {
    }
    if r.Selected? {
      var i :| 0 <= i < |offered| && offered[i] == r.version;
    }
  }

  /** A component of 2^63 is where the clients part: Go, Rust and Swift select the version,
      Kotlin and C# reject the call; and all of them reject a component of 2^64. */
  lemma WidthsDisagree()
    ensures var v := Render(Triple(9223372036854775808, 0, 0));
            IsOutcome(U64, [v], [v], Selected(v)) && IsOutcome(I64, [v], [v], Malformed(v))
    ensures var w := Render(Triple(18446744073709551616, 0, 0));
            IsOutcome(U64, [w], [w], Malformed(w)) && IsOutcome(I64, [w], [w], Malformed(w))
    ensures var x := Render(Triple(18446744073709551615, 0, 0)); IsOutcome(U64, [x], [x], Selected(x))
    ensures var y := Render(Triple(9223372036854775807, 0, 0)); IsOutcome(I64, [y], [y], Selected(y))
  {
    hide IsOutcome, Render;
    OneVersion(U64, 9223372036854775808);
    OneVersion(I64, 9223372036854775808);
    OneVersion(U64, 18446744073709551616);
    OneVersion(I64, 18446744073709551616);
    OneVersion(U64, 18446744073709551615);
    OneVersion(I64, 9223372036854775807);
  }

  /** One version, offered and supported, is selected exactly when its components fit. */
  lemma OneVersion(limit: nat, major: nat)
    requires limit > 0
    ensures var v := Render(Triple(major, 0, 0));
            IsOutcome(limit, [v], [v], if major < limit then Selected(v) else Malformed(v))
  {
    hide Parse, Render;
    var t := Triple(major, 0, 0);
    var v := Render(t);
    ParseExactly(limit, v, t);
    if WellFormed(limit, v) {
      ParseExactly(limit, v, Parts(limit, v));
      ParseExactly(major + 1, v, t);
      ParseExactly(limit + major + 1, v, Parts(limit, v));
      ParseExactly(limit + major + 1, v, t);
      assert Parts(limit, v) == t;
    }
    assert InCaretRange(t, t);
    assert [v][0] == v && ([v] + [v])[0] == v && ([v] + [v])[..0] == [];
  }

  // ---- the emitted loops

  /** Progress of a loop that has looked at `seen` offers with well-formed baselines. */
  ghost predicate BestSoFar(limit: nat, supported: seq<string>, seen: seq<string>, best: Option<string>) {
    && AllWellFormed(limit, supported) && AllWellFormed(limit, seen)
    && IsOutcome(limit, supported, seen, if best.Some? then Selected(best.value) else NoneSupported)
  }

  ghost predicate Baselines(limit: nat, supported: seq<string>, baselines: seq<Triple>) {
    && |baselines| == |supported|
    && forall k :: 0 <= k < |supported| ==> Parse(limit, supported[k]) == Some(baselines[k])
  }

  lemma StopsAtMalformed(limit: nat, supported: seq<string>, offered: seq<string>, i: nat)
    requires i < |offered| && AllWellFormed(limit, supported) && AllWellFormed(limit, offered[..i])
    requires !WellFormed(limit, offered[i])
    ensures IsOutcome(limit, supported, offered, Malformed(offered[i]))
  {
    var all := supported + offered;
    assert all[|supported| + i] == offered[i];
    assert all[..|supported| + i] == supported + offered[..i];
    AllWellFormedConcat(limit, supported, offered[..i]);
  }

  lemma StopsAtMalformedBaseline(limit: nat, supported: seq<string>, offered: seq<string>, i: nat)
    requires i < |supported| && AllWellFormed(limit, supported[..i]) && !WellFormed(limit, supported[i])
    ensures IsOutcome(limit, supported, offered, Malformed(supported[i]))
  {
    var all := supported + offered;
    assert all[i] == supported[i] && all[..i] == supported[..i];
  }

  /** One more offer: it replaces the best so far exactly when it is accepted and greater. */
  lemma BestStep(limit: nat, supported: seq<string>, offered: seq<string>, i: nat,
                 best: Option<string>, next: Option<string>)
    requires i < |offered| && BestSoFar(limit, supported, offered[..i], best) && WellFormed(limit, offered[i])
    requires best.Some? ==> WellFormed(limit, best.value)
    requires next == if Accepted(limit, supported, offered[i])
                        && (best.None? || Below(Parts(limit, best.value), Parts(limit, offered[i])))
                     then Some(offered[i]) else best
    ensures BestSoFar(limit, supported, offered[..i + 1], next)
    ensures next.Some? ==> WellFormed(limit, next.value)
  {
    var seen := offered[..i + 1];
    assert seen[i] == offered[i];
    assert forall k :: 0 <= k < i ==> seen[k] == offered[..i][k];
    if next.Some? && best.Some? && next == best {
      var k :| 0 <= k < i && offered[..i][k] == best.value;
      assert seen[k] == best.value;
    }
  }

  /** Every baseline is parsed before the first offer is looked at. */
  method ReadBaselines(supported: seq<string>, ghost offered: seq<string>)
    returns (baselines: seq<Triple>, bad: Option<string>)
    ensures bad.Some? ==> IsOutcome(U64, supported, offered, Malformed(bad.value))
    ensures bad.None? ==> Baselines(U64, supported, baselines)
  {
    baselines := [];
    for k := 0 to |supported|
      invariant Baselines(U64, supported[..k], baselines)
    {
      var parts := ParseByLoop(supported[k]);
      if parts.None? {
        StopsAtMalformedBaseline(U64, supported, offered, k);
        return baselines, Some(supported[k]);
      }
      baselines := baselines + [parts.value];
    }
    assert supported[..|supported|] == supported;
    bad := None;
  }

  /** The Go loop: the empty string stands for "nothing selected yet", and an offer is tried
      against every baseline in turn, without stopping at the first that accepts it. */
  method NegotiateGo(supported: seq<string>, offered: seq<string>) returns (r: Outcome)
    ensures IsOutcome(U64, supported, offered, r)
  {
    var baselines, bad := ReadBaselines(supported, offered);
    if bad.Some? {
      return Malformed(bad.value);
    }
    var selected, previous := "", Triple(0, 0, 0);
    for i := 0 to |offered|
      invariant BestSoFar(U64, supported, offered[..i], if selected == "" then None else Some(selected))
      invariant selected != "" ==> Parse(U64, selected) == Some(previous)
    {
      var version := offered[i];
      var parsed := ParseByLoop(version);
      if parsed.None? {
        StopsAtMalformed(U64, supported, offered, i);
        return Malformed(version);
      }
      var parts := parsed.value;
      ghost var best := if selected == "" then None else Some(selected);
      ghost var better := selected == "" || Below(previous, parts);
      for k := 0 to |baselines|
        invariant
          if better && exists j :: 0 <= j < k && InCaretRange(baselines[j], parts)
          then selected == version && previous == parts
          else selected == best.GetOr("") && (selected != "" ==> Parse(U64, selected) == Some(previous))
      {
        var atLeast := Compare(parts, baselines[k]);
        var order := Compare(parts, previous);
        if CaretTest(baselines[k], parts, atLeast >= 0) && (selected == "" || order > 0) {
          selected, previous := version, parts;
        }
      }
      BestStep(U64, supported, offered, i, best, if selected == "" then None else Some(selected));
    }
    assert offered[..|offered|] == offered;
    r := if selected == "" then NoneSupported else Selected(selected);
  }

  /** The comparison loop of Go, Kotlin and C#. */
  method Compare(a: Triple, b: Triple) returns (order: int)
    ensures order < 0 <==> Below(a, b)
    ensures order > 0 <==> Below(b, a)
  {
    var left, right := [a.major, a.minor, a.patch], [b.major, b.minor, b.patch];
    for i := 0 to 3
      invariant i > 0 ==> a.major == b.major
      invariant i > 1 ==> a.minor == b.minor
      invariant i > 2 ==> a.patch == b.patch
    {
      if left[i] < right[i] {
        return -1;
      }
      if left[i] > right[i] {
        return 1;
      }
    }
    order := 0;
  }

  /** The Rust loop: `any` over the baselines, tuple order, one optional pair. */
  method NegotiateRust(supported: seq<string>, offered: seq<string>) returns (r: Outcome)
    ensures IsOutcome(U64, supported, offered, r)
  {
    var baselines, bad := ReadBaselines(supported, offered);
    if bad.Some? {
      return Malformed(bad.value);
    }
    var selected: Option<(string, Triple)> := None;
    for i := 0 to |offered|
      invariant BestSoFar(U64, supported, offered[..i], if selected.Some? then Some(selected.value.0) else None)
      invariant selected.Some? ==> Parse(U64, selected.value.0) == Some(selected.value.1)
    {
      var version := offered[i];
      var parsed := ParseByLoop(version);
      if parsed.None? {
        StopsAtMalformed(U64, supported, offered, i);
        return Malformed(version);
      }
      var parts := parsed.value;
      ghost var best := if selected.Some? then Some(selected.value.0) else None;
      if (exists base :: base in baselines && CaretTest(base, parts, !Below(parts, base)))
         && (selected.None? || Below(selected.value.1, parts)) {
        selected := Some((version, parts));
      }
      BestStep(U64, supported, offered, i, best, if selected.Some? then Some(selected.value.0) else None);
    }
    assert offered[..|offered|] == offered;
    r := if selected.Some? then Selected(selected.value.0) else NoneSupported;
  }

  /** Swift's `lexicographicallyPrecedes` on arrays of components. */
  predicate Precedes(a: seq<nat>, b: seq<nat>) {
    if b == [] then false
    else if a == [] then true
    else a[0] < b[0] || (a[0] == b[0] && Precedes(a[1..], b[1..]))
  }

  function Components(v: Triple): seq<nat> {
    [v.major, v.minor, v.patch]
  }

  lemma PrecedesIsBelow(a: Triple, b: Triple)
    ensures Precedes(Components(a), Components(b)) <==> Below(a, b)
  {
    var x, y := Components(a), Components(b);
    assert Precedes(x[1..], y[1..]) <==> a.minor < b.minor || (a.minor == b.minor && Precedes(x[1..][1..], y[1..][1..]));
    assert Precedes(x[1..][1..], y[1..][1..]) <==> a.patch < b.patch;
  }

  /** The Swift loop: `contains(where:)` and the lexicographic order of arrays. */
  method NegotiateSwift(supported: seq<string>, offered: seq<string>) returns (r: Outcome)
    ensures IsOutcome(U64, supported, offered, r)
  {
    var baselines, bad := ReadBaselines(supported, offered);
    if bad.Some? {
      return Malformed(bad.value);
    }
    var selected: Option<string>, previous: Option<seq<nat>> := None, None;
    for i := 0 to |offered|
      invariant BestSoFar(U64, supported, offered[..i], selected)
      invariant selected.Some? == previous.Some?
      invariant selected.Some? ==>
                  WellFormed(U64, selected.value) && previous.value == Components(Parts(U64, selected.value))
    {
      var version := offered[i];
      var parsed := ParseByLoop(version);
      if parsed.None? {
        StopsAtMalformed(U64, supported, offered, i);
        return Malformed(version);
      }
      var parts := parsed.value;
      ghost var best := selected;
      forall base { PrecedesIsBelow(parts, base); }
      if best.Some? { PrecedesIsBelow(Parts(U64, best.value), parts); }
      if (exists base :: base in baselines
            && CaretTest(base, parts, !Precedes(Components(parts), Components(base))))
         && (previous.None? || Precedes(previous.value, Components(parts))) {
        selected, previous := Some(version), Some(Components(parts));
      }
      BestStep(U64, supported, offered, i, best, selected);
    }
    assert offered[..|offered|] == offered;
    r := if selected.Some? then Selected(selected.value) else NoneSupported;
  }

  /** The Kotlin and C# loop (the two differ only in syntax): signed components, `any` or
      `Exists` over the baselines with the comparison loop inside, a nullable previous triple. */
  method NegotiateSigned(supported: seq<string>, offered: seq<string>) returns (r: Outcome)
    ensures IsOutcome(I64, supported, offered, r)
  {
    var baselines: seq<Triple> := [];
    for k := 0 to |supported|
      invariant Baselines(I64, supported[..k], baselines)
    {
      var parts := ParseByExpression(supported[k]);
      if parts.None? {
        StopsAtMalformedBaseline(I64, supported, offered, k);
        return Malformed(supported[k]);
      }
      baselines := baselines + [parts.value];
    }
    assert supported[..|supported|] == supported;
    var selected: Option<string>, previous: Option<Triple> := None, None;
    for i := 0 to |offered|
      invariant BestSoFar(I64, supported, offered[..i], selected)
      invariant selected.Some? == previous.Some?
      invariant selected.Some? ==> Parse(I64, selected.value) == previous
    {
      var version := offered[i];
      var parsed := ParseByExpression(version);
      if parsed.None? {
        StopsAtMalformed(I64, supported, offered, i);
        return Malformed(version);
      }
      var parts := parsed.value;
      ghost var best := selected;
      var compatible, k := false, 0;
      while k < |baselines| && !compatible
        invariant 0 <= k <= |baselines|
        invariant compatible <==> exists j :: 0 <= j < k && InCaretRange(baselines[j], parts)
      {
        var atLeast := Compare(parts, baselines[k]);
        compatible := CaretTest(baselines[k], parts, atLeast >= 0);
        k := k + 1;
      }
      assert compatible <==> Accepted(I64, supported, version);
      if compatible {
        var order := 1;
        if previous.Some? {
          order := Compare(parts, previous.value);
        }
        if order > 0 {
          selected, previous := Some(version), Some(parts);
        }
      }
      BestStep(I64, supported, offered, i, best, selected);
    }
    assert offered[..|offered|] == offered;
    r := if selected.Some? then Selected(selected.value) else NoneSupported;
  }
}
