/** `prettyPrintNestedType`: nested object types on several lines. */
module PrettyPrint {
  import opened JsText
  import opened TypeText

  // ---- removing documentation blocks

  /** `replace(/\/\*\*[\s\S]*?\*\//g, '')`. */
  function StripBlocks(s: string): (r: string)
    ensures |r| <= |s|
    decreases |s|
  {
    if s == "" then ""
    else if StartsWith(s, "/**") && CommentEnd(s, 3) < |s| - 1 then StripBlocks(s[CommentEnd(s, 3) + 2..])
    else [s[0]] + StripBlocks(s[1..])
  }

  // ---- white space

  /** `replace(/\s+/g, ' ')`; `after` says that a space has just been written. */
  function SingleSpaces(s: string, after: bool): string {
    if s == "" then ""
    else if IsSpace(s[0]) then (if after then "" else " ") + SingleSpaces(s[1..], true)
    else [s[0]] + SingleSpaces(s[1..], false)
  }

  function Collapse(s: string): string {
    Trim(SingleSpaces(s, false))
  }

  function Spaces(n: nat): string {
    if n == 0 then "" else " " + Spaces(n - 1)
  }

  /** `'  '.repeat(n)`. */
  function Indent(n: nat): string {
    Spaces(2 * n)
  }

  /** `out.replace(/[ \t]+$/, '')`. */
  function TrimBlanks(s: string): string {
    if s != "" && (s[|s| - 1] == ' ' || s[|s| - 1] == '\t') then TrimBlanks(s[..|s| - 1]) else s
  }

  // ---- the layout, one separator at a time

  predicate Breaks(c: char) {
    c == '{' || c == ';' || c == ','
  }

  function After(c: char, depth: nat): nat {
    if c == '{' then depth + 1 else if c == '}' && depth > 0 then depth - 1 else depth
  }

  /** What stands between two characters that are not white space: `gap` says that there was
      white space between them. */
  function Separator(prev: Option<char>, gap: bool, next: char, depth: nat): string {
    if prev.None? then ""
    else if next == '}' then "\n" + Indent(After('}', depth))
    else if Breaks(prev.value) then "\n" + Indent(depth)
    else if gap then " "
    else ""
  }

  function Lay(s: string, prev: Option<char>, gap: bool, depth: nat): string {
    if s == "" then ""
    else if IsSpace(s[0]) then Lay(s[1..], prev, true, depth)
    else Separator(prev, gap, s[0], depth) + [s[0]] + Lay(s[1..], Some(s[0]), false, After(s[0], depth))
  }

  function Layout(s: string): string {
    Lay(s, None, false, 0)
  }

  function Pretty(text: string): string {
    Layout(StripBlocks(text))
  }

  // ---- white space in the input does not matter to the layout, except as a gap

  lemma {:induction false} SpacesAreSpace(n: nat)
    ensures AllSpace(Spaces(n)) && |Spaces(n)| == n && forall i :: 0 <= i < n ==> Spaces(n)[i] == ' '
  {
    if n > 0 {
      SpacesAreSpace(n - 1);
    }
  }

  lemma SeparatorIsSpace(prev: Option<char>, gap: bool, next: char, depth: nat)
    ensures AllSpace(Separator(prev, gap, next, depth))
  {
    SpacesAreSpace(2 * depth);
    SpacesAreSpace(2 * After('}', depth));
  }

  lemma {:induction false} LaySkips(space: string, s: string, prev: Option<char>, gap: bool, depth: nat)
    requires AllSpace(space)
    ensures Lay(space + s, prev, gap, depth) == Lay(s, prev, gap || space != "", depth)
  {
    if space == "" {
      assert space + s == s;
    } else {
      assert (space + s)[1..] == space[1..] + s;
      LaySkips(space[1..], s, prev, true, depth);
    }
  }

  lemma {:induction false} FirstGap(s: string, depth: nat)
    ensures Lay(s, None, true, depth) == Lay(s, None, false, depth)
  {
  }

  lemma {:induction false} LayTrailing(s: string, space: string, prev: Option<char>, gap: bool, depth: nat)
    requires AllSpace(space)
    ensures Lay(s + space, prev, gap, depth) == Lay(s, prev, gap, depth)
    decreases |s|
  {
    if s == "" {
      LaySkips(space, "", prev, gap, depth);
      assert s + space == space && space + "" == space;
    } else {
      assert (s + space)[1..] == s[1..] + space;
      LayTrailing(s[1..], space, prev, true, depth);
      LayTrailing(s[1..], space, Some(s[0]), false, After(s[0], depth));
    }
  }

  lemma LayoutOfTrimmed(s: string)
    ensures Layout(Trim(s)) == Layout(s)
  {
    hide TrimStart, TrimEnd, Lay, AllSpace;
    var t := TrimStart(s);
    var r := TrimEnd(t);
    var space := s[..|s| - |t|];
    TrimStartCutsSpace(s);
    TrimEndCutsSpace(t);
    assert s == space + t && t == r + t[|r|..];
    LaySkips(space, t, None, false, 0);
    FirstGap(t, 0);
    LayTrailing(r, t[|r|..], None, false, 0);
  }

  lemma {:induction false} LayOfSingle(s: string, after: bool, prev: Option<char>, gap: bool, depth: nat)
    requires after ==> gap
    ensures Lay(SingleSpaces(s, after), prev, gap, depth) == Lay(s, prev, gap, depth)
  {
    if s != "" {
      if IsSpace(s[0]) {
        var rest := SingleSpaces(s[1..], true);
        LayOfSingle(s[1..], true, prev, true, depth);
        assert (" " + rest)[1..] == rest && "" + rest == rest;
      } else {
        var rest := SingleSpaces(s[1..], false);
        LayOfSingle(s[1..], false, Some(s[0]), false, After(s[0], depth));
        assert ([s[0]] + rest)[1..] == rest;
      }
    }
  }

  lemma LayoutOfCollapsed(s: string)
    ensures Layout(Collapse(s)) == Layout(s)
  {
    LayoutOfTrimmed(SingleSpaces(s, false));
    LayOfSingle(s, false, None, false, 0);
    hide Lay, SingleSpaces, Trim;
  }

  // ---- laying out twice is laying out once

  lemma SeparatorAgain(prev: Option<char>, gap: bool, next: char, depth: nat)
    ensures (var sep := Separator(prev, gap, next, depth);
             Separator(prev, sep != "", next, depth) == sep)
  {
  }

  lemma {:induction false} LayAgain(s: string, prev: Option<char>, gap: bool, depth: nat)
    ensures Lay(Lay(s, prev, gap, depth), prev, false, depth) == Lay(s, prev, gap, depth)
    decreases |s|
  {
    if s != "" {
      if IsSpace(s[0]) {
        LayAgain(s[1..], prev, true, depth);
      } else {
        var sep := Separator(prev, gap, s[0], depth);
        var rest := Lay(s[1..], Some(s[0]), false, After(s[0], depth));
        SeparatorIsSpace(prev, gap, s[0], depth);
        SeparatorAgain(prev, gap, s[0], depth);
        LayAgain(s[1..], Some(s[0]), false, After(s[0], depth));
        ConcatAssoc(sep, [s[0]], rest);
        LaySkips(sep, [s[0]] + rest, prev, false, depth);
        assert ([s[0]] + rest)[1..] == rest;
      }
    }
  }

  /** The characters that are not white space. */
  function Squeeze(s: string): string {
    if s == "" then "" else (if IsSpace(s[0]) then "" else [s[0]]) + Squeeze(s[1..])
  }

  lemma {:induction false} SqueezeConcat(a: string, b: string)
    ensures Squeeze(a + b) == Squeeze(a) + Squeeze(b)
  {
    if a == "" {
      assert a + b == b;
    } else {
      assert (a + b)[1..] == a[1..] + b;
      SqueezeConcat(a[1..], b);
    }
  }

  lemma {:induction false} SqueezeSpace(s: string)
    requires AllSpace(s)
    ensures Squeeze(s) == ""
  {
    if s != "" {
      SqueezeSpace(s[1..]);
    }
  }

  lemma SqueezeThree(sep: string, c: char, rest: string)
    requires AllSpace(sep) && !IsSpace(c)
    ensures Squeeze(sep + [c] + rest) == [c] + Squeeze(rest)
  {
    SqueezeSpace(sep);
    SqueezeConcat(sep + [c], rest);
    SqueezeConcat(sep, [c]);
    hide IsSpace, AllSpace;
    assert [c][1..] == "";
  }

  /** Only white space changes. */
  lemma {:induction false} LayKeeps(s: string, prev: Option<char>, gap: bool, depth: nat)
    ensures Squeeze(Lay(s, prev, gap, depth)) == Squeeze(s)
    decreases |s|
  {
    hide IsSpace, Separator, After, AllSpace;
    if s != "" {
      if IsSpace(s[0]) {
        LayKeeps(s[1..], prev, true, depth);
        assert Squeeze(s) == Squeeze(s[1..]);
      } else {
        SeparatorIsSpace(prev, gap, s[0], depth);
        LayKeeps(s[1..], Some(s[0]), false, After(s[0], depth));
        SqueezeThree(Separator(prev, gap, s[0], depth), s[0], Lay(s[1..], Some(s[0]), false, After(s[0], depth)));
      }
    }
  }

  lemma OnlySpaceChanges(text: string)
    ensures Squeeze(Pretty(text)) == Squeeze(StripBlocks(text))
  {
    LayKeeps(StripBlocks(text), None, false, 0);
    hide *;
  }

  // ---- comment blocks

  predicate HasEnd(s: string) {
    s != "" && (StartsWith(s, "*/") || HasEnd(s[1..]))
  }

  predicate HasBlock(s: string) {
    s != "" && ((StartsWith(s, "/**") && HasEnd(s[3..])) || HasBlock(s[1..]))
  }

  lemma {:induction false} EndFound(s: string, from: nat)
    requires from <= |s|
    ensures CommentEnd(s, from) < |s| - 1 <==> HasEnd(s[from..])
    decreases |s| - from
  {
    if from < |s| {
      assert s[from..][1..] == s[from + 1..];
      EndFound(s, from + 1);
      TwoChars(s[from..], '*', '/');
      if from + 1 == |s| {
        assert s[from..][1..] == "";
      }
    }
  }

  lemma TwoChars(s: string, a: char, b: char)
    ensures StartsWith(s, [a, b]) <==> |s| >= 2 && s[0] == a && s[1] == b
  {
  }

  lemma ThreeChars(s: string)
    ensures StartsWith(s, "/**") <==> |s| >= 3 && s[0] == '/' && s[1] == '*' && s[2] == '*'
  {
  }

  lemma {:induction false} NothingToStrip(s: string)
    ensures !HasBlock(s) ==> StripBlocks(s) == s
    ensures |Squeeze(StripBlocks(s))| <= |Squeeze(s)|
    ensures HasBlock(s) ==> |Squeeze(StripBlocks(s))| < |Squeeze(s)|
    decreases |s|
  {
    hide IsSpace, CommentEnd, HasEnd;
    if s != "" {
      ThreeChars(s);
      if StartsWith(s, "/**") && CommentEnd(s, 3) < |s| - 1 {
        var n := CommentEnd(s, 3) + 2;
        EndFound(s, 3);
        NothingToStrip(s[n..]);
        assert s == s[..n] + s[n..];
        SqueezeConcat(s[..n], s[n..]);
        SlashStays(s[..n]);
      } else {
        NothingToStrip(s[1..]);
        if StartsWith(s, "/**") {
          EndFound(s, 3);
        }
        var rest := StripBlocks(s[1..]);
        assert ([s[0]] + rest)[1..] == rest && [s[0]] + s[1..] == s;
      }
    }
  }

  lemma SlashStays(s: string)
    requires s != "" && s[0] == '/'
    ensures |Squeeze(s)| > 0
  {
  }

  lemma {:induction false} EndBehindSpace(space: string, s: string)
    requires AllSpace(space)
    ensures HasEnd(space + s) == HasEnd(s)
  {
    if space == "" {
      assert space + s == s;
    } else {
      assert (space + s)[1..] == space[1..] + s;
      TwoChars(space + s, '*', '/');
      EndBehindSpace(space[1..], s);
    }
  }

  lemma {:induction false} BlockBehindSpace(space: string, s: string)
    requires AllSpace(space)
    ensures HasBlock(space + s) == HasBlock(s)
  {
    hide HasEnd;
    if space == "" {
      assert space + s == s;
    } else {
      assert (space + s)[1..] == space[1..] + s;
      ThreeChars(space + s);
      BlockBehindSpace(space[1..], s);
    }
  }

  /** What follows a slash or a star directly is not moved away from it. */
  lemma LayStarts(s: string, prev: char, depth: nat, c: char)
    requires !Breaks(prev) && (c == '*' || c == '/')
    ensures (var laid := Lay(s, Some(prev), false, depth);
             && (laid != "" && laid[0] == c <==> s != "" && s[0] == c)
             && (s != "" && s[0] == c ==> laid == [c] + Lay(s[1..], Some(c), false, depth)))
  {
    if s != "" {
      if IsSpace(s[0]) {
        GapStarts(s[1..], prev, depth);
      } else {
        var sep := Separator(Some(prev), false, s[0], depth);
        SeparatorIsSpace(Some(prev), false, s[0], depth);
        assert sep != "" ==> IsSpace((sep + [s[0]] + Lay(s[1..], Some(s[0]), false, After(s[0], depth)))[0]);
      }
    }
  }

  /** Behind a gap comes white space, or nothing. */
  lemma {:induction false} GapStarts(s: string, prev: char, depth: nat)
    requires !Breaks(prev)
    ensures (var laid := Lay(s, Some(prev), true, depth); laid == "" || IsSpace(laid[0]))
  {
    if s != "" {
      if IsSpace(s[0]) {
        GapStarts(s[1..], prev, depth);
      } else {
        var sep := Separator(Some(prev), true, s[0], depth);
        SeparatorIsSpace(Some(prev), true, s[0], depth);
        assert sep != "";
      }
    }
  }

  lemma {:induction false} EndsKept(s: string, prev: Option<char>, gap: bool, depth: nat)
    ensures HasEnd(Lay(s, prev, gap, depth)) == HasEnd(s)
    decreases |s|
  {
    if s != "" {
      TwoChars(s, '*', '/');
      if IsSpace(s[0]) {
        EndsKept(s[1..], prev, true, depth);
      } else {
        var c := s[0];
        var sep := Separator(prev, gap, c, depth);
        var rest := Lay(s[1..], Some(c), false, After(c, depth));
        SeparatorIsSpace(prev, gap, c, depth);
        ConcatAssoc(sep, [c], rest);
        EndBehindSpace(sep, [c] + rest);
        assert ([c] + rest)[1..] == rest;
        TwoChars([c] + rest, '*', '/');
        EndsKept(s[1..], Some(c), false, After(c, depth));
        if c == '*' {
          LayStarts(s[1..], '*', depth, '/');
        }
      }
    }
  }

  lemma {:induction false} BlocksKept(s: string, prev: Option<char>, gap: bool, depth: nat)
    ensures HasBlock(Lay(s, prev, gap, depth)) == HasBlock(s)
    decreases |s|
  {
    hide HasEnd;
    if s != "" {
      ThreeChars(s);
      if IsSpace(s[0]) {
        BlocksKept(s[1..], prev, true, depth);
      } else {
        var c := s[0];
        var sep := Separator(prev, gap, c, depth);
        var rest := Lay(s[1..], Some(c), false, After(c, depth));
        SeparatorIsSpace(prev, gap, c, depth);
        ConcatAssoc(sep, [c], rest);
        BlockBehindSpace(sep, [c] + rest);
        assert ([c] + rest)[1..] == rest;
        ThreeChars([c] + rest);
        BlocksKept(s[1..], Some(c), false, After(c, depth));
        if c == '/' {
          BlockStart(s[1..], depth);
          assert |rest| >= 2 ==> ([c] + rest)[3..] == rest[2..];
          assert |s| >= 3 ==> s[3..] == s[1..][2..];
        }
      }
    }
  }

  lemma BlockStart(s: string, depth: nat)
    ensures (var laid := Lay(s, Some('/'), false, depth);
             && (|laid| >= 2 && laid[0] == '*' && laid[1] == '*' <==> |s| >= 2 && s[0] == '*' && s[1] == '*')
             && (|s| >= 2 && s[0] == '*' && s[1] == '*' ==> |laid| >= 2 && HasEnd(laid[2..]) == HasEnd(s[2..])))
  {
    hide Lay, HasEnd;
    LayStarts(s, '/', depth, '*');
    if s != "" && s[0] == '*' {
      var laid := Lay(s[1..], Some('*'), false, depth);
      assert ([s[0]] + laid)[1..] == laid;
      LayStarts(s[1..], '*', depth, '*');
      if |s| >= 2 && s[1] == '*' {
        var more := Lay(s[1..][1..], Some('*'), false, depth);
        assert s[1..][1..] == s[2..] && (['*'] + more)[1..] == more;
        assert (['*'] + (['*'] + more))[2..] == more;
        EndsKept(s[2..], Some('*'), false, depth);
      }
    }
  }

  /** Printing twice is printing once exactly when removing the comment blocks left none. */
  lemma IdempotentExactly(text: string)
    ensures Pretty(Pretty(text)) == Pretty(text) <==> !HasBlock(StripBlocks(text))
  {
    hide Lay, StripBlocks, HasBlock, Squeeze;
    var s := StripBlocks(text);
    var laid := Pretty(text);
    BlocksKept(s, None, false, 0);
    NothingToStrip(laid);
    OnlySpaceChanges(laid);
    LayAgain(s, None, false, 0);
  }

  lemma {:induction false} NoBlock(s: string)
    requires !HasOpening(s)
    ensures !HasBlock(s)
  {
    if s != "" {
      NoBlock(s[1..]);
    }
  }

  predicate HasOpening(s: string) {
    s != "" && (StartsWith(s, "/**") || HasOpening(s[1..]))
  }

  /** In particular for every text without the opening of a block. */
  lemma Idempotent(text: string)
    requires !HasOpening(text)
    ensures Pretty(Pretty(text)) == Pretty(text)
  {
    hide HasOpening, HasBlock, StripBlocks, Lay;
    NoBlock(text);
    NothingToStrip(text);
    IdempotentExactly(text);
  }

  lemma InnerBlock()
    ensures StripBlocks("/***/** */") == "** */"
  {
    var t := "/***/** */";
    var rest := "** */";
    ThreeChars(t);
    assert CommentEnd(t, 3) == 3 && t[5..] == rest;
    NoSlashPair(rest);
    NoBlock(rest);
    NothingToStrip(rest);
    hide CommentEnd, HasBlock, HasOpening;
  }

  lemma StripStep(c: char, rest: string)
    requires !StartsWith([c] + rest, "/**")
    ensures StripBlocks([c] + rest) == [c] + StripBlocks(rest)
  {
    assert ([c] + rest)[1..] == rest;
    hide CommentEnd;
  }

  lemma OuterBlock()
    ensures StripBlocks("//***/** */") == "/** */"
  {
    hide StripBlocks;
    var text := "//***/** */";
    ThreeChars(text);
    InnerBlock();
    assert text == ['/'] + "/***/** */" && ['/'] + "** */" == "/** */";
    StripStep('/', "/***/** */");
  }

  lemma BlockLeft()
    ensures HasBlock("/** */")
  {
    ThreeChars("/** */");
    assert "/** */"[3..] == " */" && " */"[1..] == "*/";
    TwoChars("*/", '*', '/');
    assert HasEnd("*/") && HasEnd(" */");
  }

  /** A block whose removal makes another one. */
  lemma BlockInBlock()
    ensures Pretty(Pretty("//***/** */")) != Pretty("//***/** */")
  {
    hide *;
    OuterBlock();
    BlockLeft();
    IdempotentExactly("//***/** */");
  }

  lemma {:induction false} NoSlashPair(s: string)
    requires forall i :: 0 <= i < |s| - 2 ==> s[i] != '/'
    ensures !HasOpening(s)
  {
    if s != "" {
      ThreeChars(s);
      NoSlashPair(s[1..]);
    }
  }

  // ---- the loop of the source

  /** Text after `replace(/\s+/g, ' ').trim()`. */
  predicate Single(s: string) {
    && Trimmed(s)
    && forall i :: 0 <= i < |s| && IsSpace(s[i]) ==> s[i] == ' ' && (i > 0 ==> !IsSpace(s[i - 1]))
  }

  predicate SingleAt(s: string, i: int) {
    0 <= i < |s| && IsSpace(s[i]) ==> s[i] == ' ' && (i > 0 ==> !IsSpace(s[i - 1]))
  }

  lemma {:induction false} SingleHolds(s: string, after: bool)
    ensures forall i :: SingleAt(SingleSpaces(s, after), i)
    ensures after && SingleSpaces(s, after) != "" ==> !IsSpace(SingleSpaces(s, after)[0])
  {
    if s != "" {
      if !IsSpace(s[0]) {
        SingleHolds(s[1..], false);
        SingleCons(s[0], SingleSpaces(s[1..], false));
      } else {
        SingleHolds(s[1..], true);
        var rest := SingleSpaces(s[1..], true);
        SingleCons(' ', rest);
        assert "" + rest == rest;
      }
    }
  }

  lemma SingleCons(c: char, rest: string)
    requires forall i :: SingleAt(rest, i)
    requires IsSpace(c) ==> c == ' ' && (rest == "" || !IsSpace(rest[0]))
    ensures forall i :: SingleAt([c] + rest, i)
  {
    hide IsSpace;
    forall i ensures SingleAt([c] + rest, i) {
      assert SingleAt(rest, i - 1);
    }
  }

  lemma CollapseHolds(s: string)
    ensures Single(Collapse(s))
  {
    hide SingleSpaces, TrimStart, TrimEnd, IsSpace;
    var t := SingleSpaces(s, false);
    SingleHolds(s, false);
    var u := TrimStart(t);
    var r := TrimEnd(u);
    var n := |t| - |u|;
    assert r == t[n..n + |r|];
    assert r != "" ==> r[0] == u[0];
    forall i | 0 <= i < |r| && IsSpace(r[i]) ensures r[i] == ' ' && (i > 0 ==> !IsSpace(r[i - 1])) {
      assert SingleAt(t, n + i);
    }
  }

  /** How far the loop is: `core` is what is final but for white space in front, `pad` the white
      space written after it. */
  ghost predicate Holds(c: string, i: nat, out: string, depth: nat, core: string, pad: string, prev: Option<char>, gap: bool) {
    && i <= |c| && out == core + pad && AllSpace(pad)
    && (prev.None? ==> i == 0 && out == "" && depth == 0 && !gap)
    && (prev.Some? ==> core != "" && core[|core| - 1] == prev.value && !IsSpace(prev.value))
    && TrimStart(core) + Lay(c[i..], prev, gap, depth) == Layout(c)
    && (prev == Some('{') ==> pad == "\n" + Indent(depth) && (i < |c| ==> c[i] != ' '))
    && (prev.Some? && prev.value != '{' && Breaks(prev.value) ==>
          || (pad == "\n" + Indent(depth) && i < |c| && !IsSpace(c[i]) && c[i] != '}')
          || (Blank(pad) && OnlyBrace(c[i..])))
    && (prev.Some? && !Breaks(prev.value) ==> pad == (if gap then " " else "") && (gap && i < |c| ==> !IsSpace(c[i])))
  }

  predicate Blank(s: string) {
    forall i :: 0 <= i < |s| ==> s[i] == ' '
  }

  /** Spaces, and then a closing brace or nothing. */
  predicate OnlyBrace(s: string) {
    s == "" || s[0] == '}' || (s[0] == ' ' && OnlyBrace(s[1..]))
  }

  /** One more character that is not white space. */
  lemma NextCore(c: string, i: nat, core: string, mid: string, depth: nat, prev: Option<char>, gap: bool)
    requires i < |c| && !IsSpace(c[i]) && AllSpace(mid)
    requires prev.None? ==> core == ""
    requires prev.Some? ==> core != "" && !IsSpace(core[|core| - 1]) && mid == Separator(prev, gap, c[i], depth)
    requires TrimStart(core) + Lay(c[i..], prev, gap, depth) == Layout(c)
    ensures TrimStart(core + mid + [c[i]]) + Lay(c[i + 1..], Some(c[i]), false, After(c[i], depth)) == Layout(c)
  {
    hide *;
    LayStep(c, i, prev, gap, depth);
    if prev.None? {
      FirstCore(mid, c[i]);
      TrimNone();
      assert core + mid == mid && "" + [c[i]] == [c[i]];
    } else {
      LaterCore(core, mid, c[i], Lay(c[i + 1..], Some(c[i]), false, After(c[i], depth)));
    }
  }

  lemma FirstCore(mid: string, ch: char)
    requires AllSpace(mid) && !IsSpace(ch)
    ensures TrimStart(mid + [ch]) == [ch]
  {
    hide *;
    TrimStartIdle([ch]);
    TrimStartSkips(mid, [ch]);
  }

  lemma TrimNone()
    ensures TrimStart("") == ""
  {
  }

  lemma LaterCore(core: string, mid: string, ch: char, next: string)
    requires core != "" && !IsSpace(core[|core| - 1])
    ensures TrimStart(core + mid + [ch]) + next == TrimStart(core) + (mid + [ch] + next)
  {
    hide *;
    LastStays(core);
    ConcatAssoc(core, mid, [ch]);
    TrimStartFront(core, mid + [ch]);
    ConcatAssoc(TrimStart(core), mid + [ch], next);
  }

  lemma LayStep(c: string, i: nat, prev: Option<char>, gap: bool, depth: nat)
    requires i < |c| && !IsSpace(c[i])
    ensures Lay(c[i..], prev, gap, depth)
         == Separator(prev, gap, c[i], depth) + [c[i]] + Lay(c[i + 1..], Some(c[i]), false, After(c[i], depth))
    ensures prev.None? ==> Separator(prev, gap, c[i], depth) == ""
  {
    assert c[i..][1..] == c[i + 1..];
    hide After;
  }

  lemma LastStays(core: string)
    requires core != "" && !IsSpace(core[|core| - 1])
    ensures TrimStart(core) != "" && TrimStart(core)[|TrimStart(core)| - 1] == core[|core| - 1]
  {
    hide IsSpace;
    TrimStartCutsSpace(core);
    hide TrimStart;
    assert core[..|core|] == core;
  }

  lemma NewLineSpace(depth: nat)
    ensures AllSpace("\n" + Indent(depth))
  {
    SpacesAreSpace(2 * depth);
  }

  lemma {:induction false} TrimBlanksSpaces(s: string, pad: string)
    requires Blank(pad) && (s == "" || (s[|s| - 1] != ' ' && s[|s| - 1] != '\t'))
    ensures TrimBlanks(s + pad) == s
  {
    var t := s + pad;
    if pad == "" {
      assert t == s;
    } else {
      assert t[|t| - 1] == ' ' && t[..|t| - 1] == s + pad[..|pad| - 1];
      TrimBlanksSpaces(s, pad[..|pad| - 1]);
    }
  }

  /** What is left in front of a closing brace. */
  lemma BeforeBrace(c: string, i: nat, out: string, depth: nat, core: string, pad: string, prev: Option<char>, gap: bool)
    requires Holds(c, i, out, depth, core, pad, prev, gap) && i < |c| && c[i] == '}'
    ensures (var cutOut := TrimBlanks(out); (if EndsWith(cutOut, "\n") then cutOut else cutOut + "\n") == core + "\n")
  {
    hide Lay, Layout, TrimStart, TrimBlanks;
    NonSpaces(core);
    if pad == "\n" + Indent(depth) {
      SpacesAreSpace(2 * depth);
      TrimBlanksSpaces(core + "\n", Indent(depth));
      assert core + "\n" + Indent(depth) == core + pad;
    } else {
      assert Blank(pad);
      TrimBlanksSpaces(core, pad);
      assert core != "" ==> core[|core| - 1..] == [core[|core| - 1]];
    }
  }

  lemma NonSpaces(core: string)
    ensures core != "" && !IsSpace(core[|core| - 1]) ==>
              core[|core| - 1] != ' ' && core[|core| - 1] != '\t' && core[|core| - 1] != '\n'
  {
  }

  /** In front of any other character the padding is the separator of the layout. */
  lemma PadIsSeparator(c: string, i: nat, out: string, depth: nat, core: string, pad: string, prev: Option<char>, gap: bool)
    requires Holds(c, i, out, depth, core, pad, prev, gap) && i < |c| && !IsSpace(c[i]) && c[i] != '}'
    ensures prev.Some? ==> pad == Separator(prev, gap, c[i], depth)
    ensures TrimStart(core + pad + [c[i]]) + Lay(c[i + 1..], Some(c[i]), false, After(c[i], depth)) == Layout(c)
  {
    hide Lay, Layout, TrimStart, After, Indent;
    assert prev.Some? && Breaks(prev.value) ==> pad == "\n" + Indent(depth) by {
      SpaceIsSpace();
    }
    NextCore(c, i, core, pad, depth, prev, gap);
  }

  lemma SpaceIsSpace()
    ensures IsSpace(' ') && !IsSpace('{') && !IsSpace('}') && !IsSpace(';') && !IsSpace(',')
  {
  }

  /** The next state after an ordinary character, or after a `;` or `,` that no line break follows. */
  lemma AfterPlain(c: string, i: nat, out: string, depth: nat, core: string, pad: string, prev: Option<char>, gap: bool)
    requires Single(c) && Holds(c, i, out, depth, core, pad, prev, gap) && i < |c|
    requires !IsSpace(c[i]) && c[i] != '{' && c[i] != '}' && (Breaks(c[i]) ==> OnlyBrace(c[i + 1..]))
    ensures Holds(c, i + 1, out + [c[i]], depth, core + pad + [c[i]], "", Some(c[i]), false)
  {
    hide *;
    HoldsOut(c, i, out, depth, core, pad, prev, gap);
    PadIsSeparator(c, i, out, depth, core, pad, prev, gap);
    AfterOther(c[i], depth);
    Landed(c, i + 1, core + pad + [c[i]], depth, c[i]);
  }

  lemma AfterOther(c: char, depth: nat)
    ensures c != '{' && c != '}' ==> After(c, depth) == depth
  {
  }

  /** A state right behind a character that is not white space. */
  lemma Landed(c: string, j: nat, core: string, depth: nat, prev: char)
    requires j <= |c| && core != "" && core[|core| - 1] == prev && !IsSpace(prev) && prev != '{'
    requires TrimStart(core) + Lay(c[j..], Some(prev), false, depth) == Layout(c)
    requires Breaks(prev) ==> OnlyBrace(c[j..])
    ensures Holds(c, j, core, depth, core, "", Some(prev), false)
  {
    NoneSpace();
    hide Lay, Layout, TrimStart, IsSpace, AllSpace, Indent, Blank, OnlyBrace, Breaks;
    assert core + "" == core;
  }

  lemma SingleMeans(c: string, j: nat)
    requires Single(c) && j < |c|
    ensures IsSpace(c[j]) ==> c[j] == ' '
    ensures j == 0 ==> !IsSpace(c[j])
    ensures IsSpace(c[j]) && j > 0 ==> !IsSpace(c[j - 1])
    ensures IsSpace(c[j]) ==> j + 1 < |c| && !IsSpace(c[j + 1])
  {
    hide IsSpace;
  }

  /** A state right behind a line break. */
  lemma LineBroken(c: string, j: nat, core: string, depth: nat, prev: char, gap: bool)
    requires j <= |c| && core != "" && core[|core| - 1] == prev && !IsSpace(prev)
    requires TrimStart(core) + Lay(c[j..], Some(prev), gap, depth) == Layout(c)
    requires prev == '{' ==> j < |c| ==> c[j] != ' '
    requires prev != '{' ==> Breaks(prev) && j < |c| && !IsSpace(c[j]) && c[j] != '}'
    ensures Holds(c, j, core + ("\n" + Indent(depth)), depth, core, "\n" + Indent(depth), Some(prev), gap)
  {
    NewLineSpace(depth);
    hide Lay, Layout, TrimStart, IsSpace, AllSpace, Indent, Blank, OnlyBrace;
  }

  lemma HoldsOut(c: string, i: nat, out: string, depth: nat, core: string, pad: string, prev: Option<char>, gap: bool)
    requires Holds(c, i, out, depth, core, pad, prev, gap)
    ensures out == core + pad
  {
    hide Lay, Layout, TrimStart, IsSpace, AllSpace, Indent, Blank, OnlyBrace;
  }

  /** The next state after a `;` or `,` with a line break, which skips the spaces up to `j`. */
  lemma AfterBreak(c: string, i: nat, j: nat, out: string, depth: nat, core: string, pad: string, prev: Option<char>, gap: bool)
    requires Single(c) && Holds(c, i, out, depth, core, pad, prev, gap) && i < j < |c|
    requires (c[i] == ';' || c[i] == ',') && Blank(c[i + 1..j]) && c[j] != ' ' && c[j] != '}'
    ensures Holds(c, j, out + [c[i]] + ("\n" + Indent(depth)), depth, core + pad + [c[i]], "\n" + Indent(depth),
                  Some(c[i]), j > i + 1)
  {
    hide *;
    AfterSemicolon(depth);
    SpaceIsSpace();
    HoldsOut(c, i, out, depth, core, pad, prev, gap);
    PadIsSeparator(c, i, out, depth, core, pad, prev, gap);
    SkipTo(c, i + 1, j, Some(c[i]), depth);
    SingleMeans(c, j);
    BreaksMeans(c[i]);
    LineBroken(c, j, core + pad + [c[i]], depth, c[i], j > i + 1);
  }

  lemma AfterSemicolon(depth: nat)
    ensures After(';', depth) == depth && After(',', depth) == depth && After('{', depth) == depth + 1
  {
  }

  lemma SkipTo(c: string, i: nat, j: nat, prev: Option<char>, depth: nat)
    requires i <= j <= |c| && Blank(c[i..j])
    ensures Lay(c[i..], prev, false, depth) == Lay(c[j..], prev, j > i, depth)
  {
    SpaceIsSpace();
    assert c[i..] == c[i..j] + c[j..];
    LaySkips(c[i..j], c[j..], prev, false, depth);
  }

  lemma AfterOpen(c: string, i: nat, j: nat, out: string, depth: nat, core: string, pad: string, prev: Option<char>, gap: bool)
    requires Single(c) && Holds(c, i, out, depth, core, pad, prev, gap) && i < j <= |c|
    requires c[i] == '{' && Blank(c[i + 1..j]) && (j < |c| ==> c[j] != ' ')
    ensures Holds(c, j, out + ("{\n" + Indent(depth + 1)), depth + 1, core + pad + ['{'], "\n" + Indent(depth + 1),
                  Some('{'), j > i + 1)
  {
    hide *;
    AfterSemicolon(depth);
    SpaceIsSpace();
    HoldsOut(c, i, out, depth, core, pad, prev, gap);
    PadIsSeparator(c, i, out, depth, core, pad, prev, gap);
    SkipTo(c, i + 1, j, Some('{'), depth + 1);
    LineBroken(c, j, core + pad + ['{'], depth + 1, '{', j > i + 1);
    var line := "\n" + Indent(depth + 1);
    assert out + ['{'] + line == out + ("{\n" + Indent(depth + 1));
  }

  lemma CloseSeparator(prev: Option<char>, gap: bool, depth: nat)
    ensures prev.Some? ==> Separator(prev, gap, '}', depth) == "\n" + Indent(After('}', depth))
  {
  }

  lemma NoneSpace()
    ensures AllSpace("") && Blank("")
  {
  }

  lemma AfterClose(c: string, i: nat, out: string, depth: nat, core: string, pad: string, prev: Option<char>, gap: bool)
    requires Single(c) && Holds(c, i, out, depth, core, pad, prev, gap) && i < |c| && c[i] == '}'
    ensures Holds(c, i + 1, core + "\n" + Indent(After('}', depth)) + "}", After('}', depth),
                  core + "\n" + Indent(After('}', depth)) + "}", "", Some('}'), false)
  {
    hide *;
    CloseSeparator(prev, gap, depth);
    SpaceIsSpace();
    BreaksMeans('}');
    var mid := "\n" + Indent(After('}', depth));
    NewLineSpace(After('}', depth));
    HoldsCore(c, i, out, depth, core, pad, prev, gap);
    NextCore(c, i, core, mid, depth, prev, gap);
    assert core + mid + ['}'] == core + "\n" + Indent(After('}', depth)) + "}";
    Landed(c, i + 1, core + mid + ['}'], After('}', depth), '}');
  }

  lemma HoldsCore(c: string, i: nat, out: string, depth: nat, core: string, pad: string, prev: Option<char>, gap: bool)
    requires Holds(c, i, out, depth, core, pad, prev, gap)
    ensures prev.None? ==> core == ""
    ensures prev.Some? ==> core != "" && !IsSpace(core[|core| - 1])
    ensures TrimStart(core) + Lay(c[i..], prev, gap, depth) == Layout(c)
  {
    hide Lay, Layout, TrimStart, IsSpace, AllSpace, Indent, Blank, OnlyBrace, Breaks;
  }

  lemma AfterSpace(c: string, i: nat, out: string, depth: nat, core: string, pad: string, prev: Option<char>, gap: bool)
    requires Single(c) && Holds(c, i, out, depth, core, pad, prev, gap) && i < |c| && IsSpace(c[i])
    ensures c[i] == ' '
    ensures Holds(c, i + 1, out + [c[i]], depth, core, pad + [c[i]], prev, true)
  {
    hide Lay, Layout, TrimStart, IsSpace, Indent, Single;
    SpaceIsSpace();
    SkipOne(c, i, prev, gap, depth);
    SingleMeans(c, i);
    assert prev.Some?;
    assert c[i..][1..] == c[i + 1..];
  }

  lemma SkipOne(c: string, i: nat, prev: Option<char>, gap: bool, depth: nat)
    requires i < |c| && IsSpace(c[i])
    ensures Lay(c[i..], prev, gap, depth) == Lay(c[i + 1..], prev, true, depth)
  {
    assert c[i..][1..] == c[i + 1..];
  }

  lemma AtEnd(c: string, out: string, depth: nat, core: string, pad: string, prev: Option<char>, gap: bool)
    requires Holds(c, |c|, out, depth, core, pad, prev, gap)
    ensures Trim(out) == Layout(c)
  {
    hide Layout, IsSpace, AllSpace, Indent, TrimStart, TrimEnd;
    TrimSkips(core, pad);
    assert c[|c|..] == "";
    if prev.Some? {
      LastStays(core);
      LastIsKept(TrimStart(core));
    } else {
      assert c == "" && core == "";
    }
  }

  lemma LastIsKept(s: string)
    requires s != "" && !IsSpace(s[|s| - 1])
    ensures TrimEnd(s) == s
  {
  }

  method PrettyPrintNestedType(typeText: string) returns (result: string)
    ensures result == Pretty(typeText)
  {
    hide *;
    var stripped := Collapse(StripBlocks(typeText));
    CollapseHolds(StripBlocks(typeText));
    LayoutOfCollapsed(StripBlocks(typeText));
    var out, depth: nat, i: nat := "", 0, 0;
    ghost var core, pad, prev: Option<char>, gap := "", "", None, false;
    AtStart(stripped);
    while i < |stripped|
      invariant Holds(stripped, i, out, depth, core, pad, prev, gap)
      invariant 0 <= i <= |stripped|
    {
      var ch := stripped[i];
      if ch == '{' {
        var j := i + 1;
        NoneBlank(stripped, j);
        while j < |stripped| && stripped[j] == ' '
          invariant i < j <= |stripped| && Blank(stripped[i + 1..j])
        {
          BlankMore(stripped, i + 1, j);
          j := j + 1;
        }
        AfterOpen(stripped, i, j, out, depth, core, pad, prev, gap);
        depth := depth + 1;
        core, pad, prev, gap := core + pad + ['{'], "\n" + Indent(depth), Some('{'), j > i + 1;
        out := out + ("{\n" + Indent(depth));
        i := j;
      } else if ch == '}' {
        BeforeBrace(stripped, i, out, depth, core, pad, prev, gap);
        AfterClose(stripped, i, out, depth, core, pad, prev, gap);
        AfterBrace(depth);
        depth := if depth > 0 then depth - 1 else 0;
        out := TrimBlanks(out);
        if !EndsWith(out, "\n") {
          out := out + "\n";
        }
        out := out + Indent(depth) + "}";
        core, pad, prev, gap := core + "\n" + Indent(depth) + "}", "", Some('}'), false;
        i := i + 1;
      } else if ch == ';' || ch == ',' {
        var j := i + 1;
        NoneBlank(stripped, j);
        while j < |stripped| && stripped[j] == ' '
          invariant i < j <= |stripped| && Blank(stripped[i + 1..j])
        {
          BlankMore(stripped, i + 1, j);
          j := j + 1;
        }
        if j < |stripped| && stripped[j] != '}' {
          AfterBreak(stripped, i, j, out, depth, core, pad, prev, gap);
          out := out + [ch] + ("\n" + Indent(depth));
          core, pad, prev, gap := core + pad + [ch], "\n" + Indent(depth), Some(ch), j > i + 1;
          i := j;
        } else {
          BlankThenBrace(stripped, i + 1, j);
          SpaceIsSpace();
          AfterPlain(stripped, i, out, depth, core, pad, prev, gap);
          out := out + [ch];
          core, pad, prev, gap := core + pad + [ch], "", Some(ch), false;
          i := i + 1;
        }
      } else {
        BreaksMeans(ch);
        if IsSpace(ch) {
          AfterSpace(stripped, i, out, depth, core, pad, prev, gap);
          pad, gap := pad + [ch], true;
        } else {
          AfterPlain(stripped, i, out, depth, core, pad, prev, gap);
          core, pad, prev, gap := core + pad + [ch], "", Some(ch), false;
        }
        out := out + [ch];
        i := i + 1;
      }
    }
    AtEnd(stripped, out, depth, core, pad, prev, gap);
    PrettyMeans(typeText);
    return Trim(out);
  }

  lemma PrettyMeans(text: string)
    ensures Pretty(text) == Layout(StripBlocks(text))
  {
  }

  lemma AtStart(c: string)
    ensures Holds(c, 0, "", 0, "", "", None, false)
  {
    hide Lay;
    TrimNone();
    NoneSpace();
    assert c[0..] == c && "" + Layout(c) == Layout(c);
    assert "" + "" == "";
  }

  lemma NoneBlank(c: string, i: nat)
    requires i <= |c|
    ensures Blank(c[i..i])
  {
  }

  lemma AfterBrace(depth: nat)
    ensures After('}', depth) == if depth > 0 then depth - 1 else 0
  {
  }

  lemma BreaksMeans(c: char)
    ensures Breaks(c) <==> c == '{' || c == ';' || c == ','
  {
  }

  lemma BlankMore(c: string, i: nat, j: nat)
    requires i <= j < |c| && Blank(c[i..j]) && c[j] == ' '
    ensures Blank(c[i..j + 1])
  {
    assert c[i..j + 1] == c[i..j] + [c[j]];
  }

  lemma {:induction false} BlankThenBrace(c: string, i: nat, j: nat)
    requires i <= j <= |c| && Blank(c[i..j]) && (j < |c| ==> c[j] == '}')
    ensures OnlyBrace(c[i..])
    decreases j - i
  {
    if i < j {
      assert c[i..j][0] == ' ' && c[i..][1..] == c[i + 1..];
      assert c[i + 1..j] == c[i..j][1..];
      BlankThenBrace(c, i + 1, j);
    }
  }
}
