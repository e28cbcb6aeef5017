/** Protocol version strings: SemVer 2.0.0 core versions (section 2) whose three components
    fit the integer type of the generated client. */
module Version {
  import opened JsText
  import opened Decimal

  datatype Triple = Triple(major: nat, minor: nat, patch: nat)

  /** One more than the largest component: unsigned 64-bit in Go, Rust and Swift,
      signed 64-bit in Kotlin and C#. */
  const U64: nat := 0x1_0000_0000_0000_0000
  const I64: nat := 0x8000_0000_0000_0000

  // ---- versions

  function Render(v: Triple): string {
    Numeral(v.major) + "." + Numeral(v.minor) + "." + Numeral(v.patch)
  }

  predicate Fits(v: Triple, limit: nat) {
    v.major < limit && v.minor < limit && v.patch < limit
  }

  /** One component as the Go, Rust and Swift parsers test it. */
  function ParseComponent(limit: nat, part: string): Option<nat> {
    if part == "" || (|part| > 1 && part[0] == '0') then None
    else if !AllDigits(part) then None
    else if NumeralValue(part) >= limit then None
    else Some(NumeralValue(part))
  }

  function Parse(limit: nat, version: string): Option<Triple> {
    var parts := Split(version, '.');
    if |parts| != 3 then None
    else
      match (ParseComponent(limit, parts[0]), ParseComponent(limit, parts[1]), ParseComponent(limit, parts[2]))
      case (Some(a), Some(b), Some(c)) => Some(Triple(a, b, c))
      case _ => None
  }

  lemma RenderSplits(v: Triple)
    ensures Split(Render(v), '.') == [Numeral(v.major), Numeral(v.minor), Numeral(v.patch)]
  {
    NumeralRoundTrip(v.major);
    NumeralRoundTrip(v.minor);
    NumeralRoundTrip(v.patch);
    var parts := [Numeral(v.major), Numeral(v.minor), Numeral(v.patch)];
    assert Join(parts[1..], '.') == parts[1] + ['.'] + parts[2];
    assert Render(v) == Join(parts, '.');
    SplitJoin(parts, '.');
  }

  lemma ComponentMeans(limit: nat, part: string)
    ensures ParseComponent(limit, part).Some? ==>
              IsNumeral(part) && Numeral(ParseComponent(limit, part).value) == part && ParseComponent(limit, part).value < limit
  {
    if ParseComponent(limit, part).Some? {
      ValueRoundTrip(part);
    }
    hide IsNumeral;
  }

  lemma ParsedIsPrinted(limit: nat, version: string, v: Triple)
    requires Parse(limit, version) == Some(v)
    ensures Fits(v, limit) && version == Render(v)
  {
    hide Split, IsNumeral, Numeral, ParseComponent;
    JoinSplit(version, '.');
    var parts := Split(version, '.');
    ComponentMeans(limit, parts[0]);
    ComponentMeans(limit, parts[1]);
    ComponentMeans(limit, parts[2]);
    assert Join(parts[1..], '.') == parts[1] + ['.'] + parts[2];
  }

  /** A parser accepts a string exactly when it is the printed form of a triple whose
      components fit the integer type, and then it returns that triple. */
  lemma ParseExactly(limit: nat, version: string, v: Triple)
    ensures Parse(limit, version) == Some(v) <==> Fits(v, limit) && version == Render(v)
  {
    if Parse(limit, version) == Some(v) {
      ParsedIsPrinted(limit, version, v);
    }
    if Fits(v, limit) && version == Render(v) {
      RenderSplits(v);
      NumeralRoundTrip(v.major);
      NumeralRoundTrip(v.minor);
      NumeralRoundTrip(v.patch);
    }
  }

  /** Equal triples come from equal strings, whatever integer types the two parsers use. */
  lemma ParseInjective(limit1: nat, limit2: nat, s: string, t: string)
    requires Parse(limit1, s).Some? && Parse(limit1, s) == Parse(limit2, t)
    ensures s == t
  {
    var v := Parse(limit1, s).value;
    ParseExactly(limit1, s, v);
    ParseExactly(limit2, t, v);
  }

  /** A wider integer type accepts every version a narrower one does, with the same value. */
  lemma ParseMonotone(narrow: nat, wide: nat, s: string)
    requires narrow <= wide
    ensures Parse(narrow, s).Some? ==> Parse(wide, s) == Parse(narrow, s)
  {
  }

  // ---- the two parsers in the form the clients are generated in

  /** The parse loop of the Go, Rust and Swift clients. */
  method ParseByLoop(version: string) returns (r: Option<Triple>)
    ensures r == Parse(U64, version)
  {
    var parts := Split(version, '.');
    if |parts| != 3 {
      return None;
    }
    var values: seq<nat> := [];
    for i := 0 to |parts|
      invariant |values| == i
      invariant forall k :: 0 <= k < i ==> ParseComponent(U64, parts[k]) == Some(values[k])
    {
      var part := parts[i];
      if part == "" || (|part| > 1 && part[0] == '0') {
        return None;
      }
      for d := 0 to |part|
        invariant forall k :: 0 <= k < d ==> IsDigit(part[k])
      {
        if part[d] < '0' || part[d] > '9' {
          return None;
        }
      }
      var value := NumeralValue(part);
      if value >= U64 {
        return None;
      }
      values := values + [value];
    }
    r := Some(Triple(values[0], values[1], values[2]));
  }

  /** The number of leading digits of `s`: how far `[0-9]*` reaches. */
  function DigitRun(s: string): (n: nat)
    ensures n <= |s| && AllDigits(s[..n]) && (n < |s| ==> !IsDigit(s[n]))
  {
    if s != "" && IsDigit(s[0]) then 1 + DigitRun(s[1..]) else 0
  }

  /** How far `(0|[1-9][0-9]*)` reaches into `s`, when it matches at all. */
  function NumeralRun(s: string): (n: Option<nat>)
    ensures n.Some? ==> 0 < n.value <= |s| && IsNumeral(s[..n.value])
  {
    if s == "" || !IsDigit(s[0]) then None
    else if s[0] == '0' then Some(1)
    else Some(DigitRun(s))
  }

  /** The anchored expression `(0|[1-9][0-9]*)\.(0|[1-9][0-9]*)\.(0|[1-9][0-9]*)` of the Kotlin
      and C# clients, with `count` dotted numerals still to match. */
  predicate MatchesVersion(s: string, count: nat) {
    var n := NumeralRun(s);
    if count == 0 || n.None? then false
    else if count == 1 then n.value == |s|
    else n.value < |s| && s[n.value] == '.' && MatchesVersion(s[n.value + 1..], count - 1)
  }

  lemma {:induction false} DigitRunBounds(s: string, n: nat)
    requires n <= |s| && AllDigits(s[..n])
    requires n < |s| ==> !IsDigit(s[n])
    ensures DigitRun(s) == n
  {
    if n > 0 {
      assert s[..n][0] == s[0];
      assert s[1..][..n - 1] == s[..n][1..];
      DigitRunBounds(s[1..], n - 1);
    }
  }

  lemma NumeralRunOfNumeral(part: string, rest: string)
    requires IsNumeral(part)
    requires rest == "" || rest[0] == '.'
    ensures NumeralRun(part + rest) == Some(|part|)
  {
    var s := part + rest;
    DigitRunBounds(s, |part|);
  }

  predicate DottedNumerals(parts: seq<string>, count: nat) {
    |parts| == count && forall k :: 0 <= k < count ==> IsNumeral(parts[k])
  }

  lemma {:induction false} MatchImpliesParts(s: string, count: nat)
    requires count >= 1 && MatchesVersion(s, count)
    ensures DottedNumerals(Split(s, '.'), count)
  {
    var n := NumeralRun(s).value;
    if count == 1 {
      assert s[..n] == s;
      SplitNoSep(s, '.');
    } else {
      assert s == s[..n] + ['.'] + s[n + 1..];
      SplitCons(s[..n], s[n + 1..], '.');
      MatchImpliesParts(s[n + 1..], count - 1);
    }
  }

  lemma MatchStep(part: string, rest: string, count: nat)
    requires IsNumeral(part) && count >= 1 && MatchesVersion(rest, count)
    ensures MatchesVersion(part + ['.'] + rest, count + 1)
  {
    var s := part + ['.'] + rest;
    assert s == part + (['.'] + rest);
    NumeralRunOfNumeral(part, ['.'] + rest);
    assert s[|part| + 1..] == rest;
  }

  lemma {:induction false} PartsImplyMatch(parts: seq<string>)
    requires |parts| >= 1 && DottedNumerals(parts, |parts|)
    ensures MatchesVersion(Join(parts, '.'), |parts|)
  {
    if |parts| == 1 {
      assert parts[0] + "" == parts[0];
      NumeralRunOfNumeral(parts[0], "");
    } else {
      PartsImplyMatch(parts[1..]);
      MatchStep(parts[0], Join(parts[1..], '.'), |parts| - 1);
    }
  }

  /** The anchored expression accepts exactly what splitting at the dots and testing each
      part accepts. */
  lemma MatchesExactly(s: string, count: nat)
    requires count >= 1
    ensures MatchesVersion(s, count) <==> DottedNumerals(Split(s, '.'), count)
  {
    if MatchesVersion(s, count) {
      MatchImpliesParts(s, count);
    }
    if DottedNumerals(Split(s, '.'), count) {
      JoinSplit(s, '.');
      PartsImplyMatch(Split(s, '.'));
    }
  }

  /** The parser of the Kotlin and C# clients: an anchored expression, then a split and a
      signed conversion of each part. */
  method ParseByExpression(version: string) returns (r: Option<Triple>)
    ensures r == Parse(I64, version)
  {
    MatchesExactly(version, 3);
    if !MatchesVersion(version, 3) {
      assert Parse(I64, version).None?;
      return None;
    }
    var parts := Split(version, '.');
    var values: seq<nat> := [];
    for i := 0 to 3
      invariant |values| == i
      invariant forall k :: 0 <= k < i ==> ParseComponent(I64, parts[k]) == Some(values[k])
    {
      var value := NumeralValue(parts[i]);
      if value >= I64 {
        return None;
      }
      values := values + [value];
    }
    r := Some(Triple(values[0], values[1], values[2]));
  }
}
