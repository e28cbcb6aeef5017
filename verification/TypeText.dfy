/** From the text of a TypeScript type to a JSON Schema node (`typeTextToSchema`). */
module TypeText {
  import opened JsText
  import opened Schema

  // ---- the regular expressions

  /** `\w`. */
  predicate IsWordChar(c: char) {
    'a' <= c <= 'z' || 'A' <= c <= 'Z' || '0' <= c <= '9' || c == '_'
  }

  predicate IsWord(s: string) {
    s != "" && forall i :: 0 <= i < |s| ==> IsWordChar(s[i])
  }

  predicate IsCapital(c: char) {
    'A' <= c <= 'Z'
  }

  predicate StartsWith(s: string, prefix: string) {
    prefix <= s
  }

  predicate EndsWith(s: string, suffix: string) {
    |suffix| <= |s| && s[|s| - |suffix|..] == suffix
  }

  /** The first position of `c` at or after `from`, or the length. */
  function IndexFrom(s: string, c: char, from: nat): (r: nat)
    requires from <= |s|
    ensures from <= r <= |s|
    ensures forall i :: from <= i < r ==> s[i] != c
    ensures r < |s| ==> s[r] == c
    decreases |s| - from
  {
    if from == |s| || s[from] == c then from else IndexFrom(s, c, from + 1)
  }

  /** The length of `import\([^)]+\)\.` at the start of `s`, or 0. */
  function ImportLength(s: string): (r: nat)
    ensures r <= |s|
  {
    if !StartsWith(s, "import(") then 0
    else
      var close := IndexFrom(s, ')', 7);
      if 7 < close < |s| - 1 && s[close + 1] == '.' then close + 2 else 0
  }

  /** `replace(/import\([^)]+\)\./g, '')`. */
  function StripImports(s: string): (r: string)
    ensures |r| <= |s|
    decreases |s|
  {
    if s == "" then ""
    else
      var n := ImportLength(s);
      if n > 0 then StripImports(s[n..]) else [s[0]] + StripImports(s[1..])
  }

  /** Outer parentheses are stripped as long as the text begins and ends with one; they need
      not match each other. */
  function StripParens(s: string): (r: string)
    ensures |r| <= |s|
    decreases |s|
  {
    if |s| >= 2 && s[0] == '(' && s[|s| - 1] == ')' then StripParens(Trim(s[1..|s| - 1])) else s
  }

  function Cleaned(text: string): (r: string)
    ensures |r| <= |text|
  {
    StripParens(Trim(StripImports(text)))
  }

  /** What follows a bar, white space skipped. */
  function BehindBar(rest: string): (r: Option<string>)
    ensures r.Some? ==> |r.value| < |rest|
  {
    var bar := TrimStart(rest);
    if bar == "" || bar[0] != '|' then None else Some(TrimStart(bar[1..]))
  }

  /** `^'[^']*'(\s*\|\s*'[^']*')*$`, with the quoted values. */
  function LiteralValues(s: string): Option<seq<string>>
    decreases |s|
  {
    if s == "" || s[0] != '\'' then None
    else
      var close := IndexFrom(s, '\'', 1);
      if close == |s| then None
      else if close == |s| - 1 then Some([s[1..close]])
      else
        match BehindBar(s[close + 1..])
        case None => None
        case Some(more) =>
          match LiteralValues(more)
          case None => None
          case Some(values) => Some([s[1..close]] + values)
  }

  /** `^(.+)\[\]$`. */
  function ArrayElement(s: string): (r: Option<string>)
    ensures r.Some? ==> |r.value| < |s|
  {
    if EndsWith(s, "[]") && IsLine(s[..|s| - 2]) then Some(s[..|s| - 2]) else None
  }

  const RECORD: string := "Record<string,"

  /** `^Record<string,\s*(.+)>$`. */
  function RecordValue(s: string): (r: Option<string>)
    ensures r.Some? ==> |r.value| < |s|
  {
    if !StartsWith(s, RECORD) || |s| < |RECORD| + 2 || s[|s| - 1] != '>' then None
    else
      var body := s[|RECORD|..|s| - 1];
      var group := if TrimStart(body) == "" then body[|body| - 1..] else TrimStart(body);
      if IsLine(group) then Some(group) else None
  }

  /** `^(.+?)\s*\|\s*undefined$`. */
  function BeforeUndefined(s: string): (r: Option<string>)
    ensures r.Some? ==> |r.value| < |s|
  {
    if !EndsWith(s, "undefined") then None
    else
      var front := TrimEnd(s[..|s| - 9]);
      if front == "" || front[|front| - 1] != '|' then None
      else
        var rest := front[..|front| - 1];
        var group := if TrimEnd(rest) == "" && rest != "" then rest[..1] else TrimEnd(rest);
        if IsLine(group) then Some(group) else None
  }

  /** `^Partial<(\w+)>$`. */
  function PartialName(s: string): Option<string> {
    if StartsWith(s, "Partial<") && |s| >= 10 && s[|s| - 1] == '>' && IsWord(s[8..|s| - 1]) then Some(s[8..|s| - 1])
    else None
  }

  /** `^([A-Z]\w*)\.(\w+)$`. */
  function EnumMember(s: string): Option<(string, string)> {
    var dot := IndexFrom(s, '.', 0);
    if 0 < dot < |s| && IsCapital(s[0]) && IsWord(s[..dot]) && IsWord(s[dot + 1..]) then Some((s[..dot], s[dot + 1..]))
    else None
  }

  // ---- unions

  /** How a character changes the bracket depth. */
  function Bracket(c: char): int {
    if c == '<' || c == '(' || c == '{' || c == '[' then 1
    else if c == '>' || c == ')' || c == '}' || c == ']' then -1
    else 0
  }

  function LastPart(current: string): seq<string> {
    if Trim(current) != "" then [Trim(current)] else []
  }

  /** The parts of a union from `s` on, at the given depth and with `current` read so far. */
  function SplitFrom(s: string, depth: int, current: string): seq<string>
    decreases |s|
  {
    if s == "" then LastPart(current)
    else if Bracket(s[0]) == 0 && s[0] == '|' && depth == 0 then [Trim(current)] + SplitFrom(s[1..], 0, "")
    else SplitFrom(s[1..], depth + Bracket(s[0]), current + [s[0]])
  }

  function SplitUnion(s: string): seq<string> {
    SplitFrom(s, 0, "")
  }

  method SplitUnionType(typeText: string) returns (parts: seq<string>)
    ensures parts == SplitUnion(typeText)
  {
    parts := [];
    var depth, current := 0, "";
    for i := 0 to |typeText|
      invariant parts + SplitFrom(typeText[i..], depth, current) == SplitUnion(typeText)
    {
      assert typeText[i..][1..] == typeText[i + 1..];
      var c := typeText[i];
      if c == '<' || c == '(' || c == '{' || c == '[' {
        depth := depth + 1;
      } else if c == '>' || c == ')' || c == '}' || c == ']' {
        depth := depth - 1;
      } else if c == '|' && depth == 0 {
        parts := parts + [Trim(current)];
        current := "";
        continue;
      }
      current := current + [c];
    }
    if Trim(current) != "" {
      parts := parts + [Trim(current)];
    }
  }

  lemma TrimShrinks(s: string)
    ensures |Trim(s)| <= |s|
  {
  }

  /** A part is never longer than the text, and is shorter once there are two. */
  lemma {:induction false} PartLengths(s: string, depth: int, current: string)
    ensures forall i :: 0 <= i < |SplitFrom(s, depth, current)| ==> |SplitFrom(s, depth, current)[i]| <= |current| + |s|
    ensures |SplitFrom(s, depth, current)| > 1 ==>
              forall i :: 0 <= i < |SplitFrom(s, depth, current)| ==> |SplitFrom(s, depth, current)[i]| < |current| + |s|
    decreases |s|
  {
    hide Trim;
    TrimShrinks(current);
    if s != "" {
      if Bracket(s[0]) == 0 && s[0] == '|' && depth == 0 {
        PartLengths(s[1..], 0, "");
      } else {
        PartLengths(s[1..], depth + Bracket(s[0]), current + [s[0]]);
      }
    }
  }

  /** The members that become branches: empty ones and `undefined` are dropped. */
  function LiveParts(parts: seq<string>): seq<string> {
    if parts == [] then []
    else (if parts[0] == "undefined" || parts[0] == "" then [] else [parts[0]]) + LiveParts(parts[1..])
  }

  lemma {:induction false} LivePartsAreParts(parts: seq<string>, bound: nat)
    requires forall i :: 0 <= i < |parts| ==> |parts[i]| <= bound
    ensures forall i :: 0 <= i < |LiveParts(parts)| ==> |LiveParts(parts)[i]| <= bound && LiveParts(parts)[i] in parts
    ensures |LiveParts(parts)| <= |parts|
  {
    if parts != [] {
      LivePartsAreParts(parts[1..], bound);
      assert parts == [parts[0]] + parts[1..];
    }
  }

  /** The exported test: some top-level member is `undefined`. */
  predicate TypeAdmitsUndefined(text: string) {
    "undefined" in SplitUnion(Trim(text))
  }

  // ---- inline objects

  datatype Field = Field(name: string, optional: bool, text: string)

  /** The first position of the end of a block comment in `s` from `from`, or the length. */
  function CommentEnd(s: string, from: nat): (r: nat)
    requires from <= |s|
    ensures from <= r <= |s|
    decreases |s| - from
  {
    if from + 1 >= |s| then |s|
    else if s[from] == '*' && s[from + 1] == '/' then from
    else CommentEnd(s, from + 1)
  }

  /** `replace(/\/\*[\s\S]*?\*\//g, '')`. */
  function StripComments(s: string): (r: string)
    ensures |r| <= |s|
    decreases |s|
  {
    if s == "" then ""
    else if |s| >= 4 && s[0] == '/' && s[1] == '*' && CommentEnd(s, 2) < |s| - 1 then
      StripComments(s[CommentEnd(s, 2) + 2..])
    else [s[0]] + StripComments(s[1..])
  }

  function WordRun(s: string): (n: nat)
    ensures n <= |s|
    ensures forall i :: 0 <= i < n ==> IsWordChar(s[i])
    ensures n < |s| ==> !IsWordChar(s[n])
  {
    if s != "" && IsWordChar(s[0]) then 1 + WordRun(s[1..]) else 0
  }

  /** The field, once the colon has been found. */
  function FieldOf(name: string, optional: bool, rest: string): (r: Option<Field>)
    ensures r.Some? ==> |r.value.text| <= |rest|
  {
    var text := TrimStart(rest);
    if IsLine(text) then Some(Field(name, optional, Trim(text))) else None
  }

  /** `^(\w+)(\?)?:\s*(.+)$` on a trimmed field. */
  function ParseField(field: string): (r: Option<Field>)
    ensures r.Some? ==> |r.value.text| < |field|
  {
    var n := WordRun(field);
    if n == 0 then None
    else
      var optional := n < |field| && field[n] == '?';
      var colon := if optional then n + 1 else n;
      if colon >= |field| || field[colon] != ':' then None
      else FieldOf(field[..n], optional, field[colon + 1..])
  }

  function ParseFields(pieces: seq<string>): seq<Field> {
    if pieces == [] then []
    else
      match ParseField(Trim(pieces[0]))
      case None => ParseFields(pieces[1..])
      case Some(f) => [f] + ParseFields(pieces[1..])
  }

  /** The text between the first `{` and the last `}`, comments removed, split at every `;`. */
  function InlineFields(text: string): seq<Field> {
    var cleaned := StripComments(text);
    var open := IndexFrom(cleaned, '{', 0);
    var close := LastIndex(cleaned, '}');
    if open < |cleaned| && open < close then FieldsOf(cleaned[open + 1..close]) else []
  }

  function FieldsOf(inner: string): seq<Field> {
    ParseFields(Split(Trim(inner), ';'))
  }

  /** The last position of `c`, or 0. */
  function LastIndex(s: string, c: char): (r: nat)
    ensures r <= |s|
  {
    if s == "" then 0
    else if s[|s| - 1] == c then |s| - 1
    else LastIndex(s[..|s| - 1], c)
  }

  lemma {:induction false} SplitPieceLengths(s: string, sep: char)
    ensures forall i :: 0 <= i < |Split(s, sep)| ==> |Split(s, sep)[i]| <= |s|
  {
    if s != "" {
      SplitPieceLengths(s[1..], sep);
    }
  }

  lemma {:induction false} FieldLengths(pieces: seq<string>, bound: nat)
    requires forall i :: 0 <= i < |pieces| ==> |pieces[i]| <= bound
    ensures forall i :: 0 <= i < |ParseFields(pieces)| ==> |ParseFields(pieces)[i].text| < bound
  {
    hide ParseField, Trim;
    if pieces != [] {
      TrimShrinks(pieces[0]);
      FieldLengths(pieces[1..], bound);
    }
  }

  lemma FieldsOfLengths(inner: string)
    ensures forall i :: 0 <= i < |FieldsOf(inner)| ==> |FieldsOf(inner)[i].text| < |inner|
  {
    hide ParseFields, Split, Trim;
    TrimShrinks(inner);
    SplitPieceLengths(Trim(inner), ';');
    FieldLengths(Split(Trim(inner), ';'), |inner|);
  }

  lemma InlineFieldLengths(text: string)
    ensures forall i :: 0 <= i < |InlineFields(text)| ==> |InlineFields(text)[i].text| < |text|
  {
    var cleaned := StripComments(text);
    var open := IndexFrom(cleaned, '{', 0);
    var close := LastIndex(cleaned, '}');
    hide StripComments, IndexFrom, LastIndex, FieldsOf;
    if open < |cleaned| && open < close {
      var inner := cleaned[open + 1..close];
      FieldsOfLengths(inner);
      assert |inner| < |text|;
    }
  }
}
