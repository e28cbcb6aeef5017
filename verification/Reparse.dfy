/** What reading a rendered document back gives.  Reading replaces `\r\n` again, so a line that
    still ends in a carriage return (from `\r\r\n` in the file) loses it. */
module Reparse {
  import opened JsText
  import opened Markdown

  /** The last line exists and ends in a non-blank character. */
  predicate TightLines(lines: seq<string>) {
    lines != [] && EndsInText(lines[|lines| - 1])
  }

  predicate EndsInText(line: string) {
    line != "" && !IsSpace(line[|line| - 1])
  }

  lemma {:induction false} JoinEnd(lines: seq<string>)
    requires lines != []
    ensures var last, text := lines[|lines| - 1], Join(lines, '\n');
            if last != "" then text != "" && text[|text| - 1] == last[|last| - 1]
            else if |lines| == 1 then text == ""
            else text != "" && text[|text| - 1] == '\n'
  {
    if |lines| > 1 {
      JoinEnd(lines[1..]);
      assert lines[1..][|lines| - 2] == lines[|lines| - 1];
    }
  }

  /** The lines of a canonical text end in a non-blank character. */
  lemma CanonicalLinesTight(markdown: string)
    requires Canonical(markdown) != ""
    ensures TightLines(Split(Canonical(markdown), '\n'))
  {
    var text := Canonical(markdown);
    var lines := Split(text, '\n');
    JoinSplit(text, '\n');
    JoinEnd(lines);
  }

  // ---- carriage returns at line ends

  function Chop(line: string): string {
    if line != "" && line[|line| - 1] == '\r' then line[..|line| - 1] else line
  }

  function ChopLines(lines: seq<string>): seq<string> {
    seq(|lines|, i requires 0 <= i < |lines| => Chop(lines[i]))
  }

  function ChopSection(s: Section): Section {
    Section(Chop(s.heading), ChopLines(s.body))
  }

  function ChopSections(sections: seq<Section>): seq<Section> {
    seq(|sections|, i requires 0 <= i < |sections| => ChopSection(sections[i]))
  }

  function ChopDocument(d: Document): Document {
    Document(ChopLines(d.preamble), ChopSections(d.sections))
  }

  lemma ChopLinesConcat(a: seq<string>, b: seq<string>)
    ensures ChopLines(a + b) == ChopLines(a) + ChopLines(b)
  {
  }

  lemma ChopSectionsConcat(a: seq<Section>, b: seq<Section>)
    ensures ChopSections(a + b) == ChopSections(a) + ChopSections(b)
  {
  }

  lemma {:induction false} ChopFlattenSections(sections: seq<Section>)
    ensures FlattenSections(ChopSections(sections)) == ChopLines(FlattenSections(sections))
  {
    if sections != [] {
      var s, rest := sections[0], sections[1..];
      ChopFlattenSections(rest);
      assert ChopSections(sections)[1..] == ChopSections(rest);
      ChopLinesConcat([s.heading] + s.body, FlattenSections(rest));
      ChopLinesConcat([s.heading], s.body);
      assert ChopLines([s.heading]) == [Chop(s.heading)];
    }
  }

  lemma ChopFlatten(d: Document)
    ensures Flatten(ChopDocument(d)) == ChopLines(Flatten(d))
  {
    ChopFlattenSections(d.sections);
    ChopLinesConcat(d.preamble, FlattenSections(d.sections));
  }

  lemma ChopKeepsHeading(line: string)
    ensures IsHeading(Chop(line)) <==> IsHeading(line)
  {
    if IsHeading(line) {
      assert line[2] == ' ';
      assert Chop(line)[..3] == line[..3];
    }
  }

  lemma ChopWellFormed(d: Document)
    requires WellFormed(d)
    ensures WellFormed(ChopDocument(d))
  {
    forall line ensures IsHeading(Chop(line)) <==> IsHeading(line) {
      ChopKeepsHeading(line);
    }
    hide IsHeading, Chop;
    forall i | 0 <= i < |d.sections| ensures WellFormedSection(ChopSection(d.sections[i])) {
      assert WellFormedSection(d.sections[i]);
    }
  }

  lemma NoPairInLine(line: string)
    requires '\n' !in line
    ensures NormalizeNewlines(line) == line
  {
    NormalizeIdentity(line);
  }

  /** Replacing `\r\n` in a joined text is chopping its lines. */
  lemma {:induction false} NormalizeJoin(lines: seq<string>)
    requires NewlineFree(lines) && TightLines(lines)
    ensures NormalizeNewlines(Join(lines, '\n')) == Join(ChopLines(lines), '\n')
  {
    var first := lines[0];
    NoPairInLine(first);
    if |lines| == 1 {
      assert ChopLines(lines) == lines;
    } else {
      var rest := Join(lines[1..], '\n');
      NormalizeJoin(lines[1..]);
      assert ChopLines(lines)[1..] == ChopLines(lines[1..]);
      hide NormalizeNewlines;
      NormalizeBreak(first, rest);
    }
  }

  lemma NormalizeBreak(line: string, rest: string)
    requires '\n' !in line
    ensures NormalizeNewlines(line + ['\n'] + rest) == Chop(line) + ['\n'] + NormalizeNewlines(rest)
  {
    hide NormalizeNewlines;
    var front := Chop(line);
    NoPairInLine(line);
    if front == line {
      assert line + ['\n'] + rest == line + (['\n'] + rest);
      NormalizeConcat(line, ['\n'] + rest);
      NormalizeCons('\n', rest);
    } else {
      assert '\n' !in front;
      NoPairInLine(front);
      assert line + ['\n'] + rest == front + ("\r\n" + rest);
      NormalizeConcat(front, "\r\n" + rest);
      NormalizePair(rest);
    }
  }

  // ---- rendering tight documents and reading them back

  predicate TightDocument(d: Document) {
    WellFormed(d) && NewlineFree(Flatten(d)) && TightLines(Flatten(d))
  }

  lemma RenderTight(d: Document)
    requires TightLines(Flatten(d))
    ensures Render(d) == Join(Flatten(d), '\n') + "\n"
  {
    JoinEnd(Flatten(d));
  }

  lemma ChopTight(d: Document)
    requires TightDocument(d)
    ensures TightDocument(ChopDocument(d))
  {
    ChopWellFormed(d);
    ChopFlatten(d);
    var lines := Flatten(d);
    hide Flatten, WellFormed;
    forall i | 0 <= i < |lines| ensures '\n' !in ChopLines(lines)[i] {
      assert '\n' !in lines[i];
    }
    assert ChopLines(lines)[|lines| - 1] == lines[|lines| - 1];
  }

  /** Replacing `\r\n` in a tight text and its final newline keeps the end as it is. */
  lemma NormalizeTight(lines: seq<string>)
    requires NewlineFree(lines) && TightLines(lines)
    ensures var chopped := Join(ChopLines(lines), '\n');
            && NormalizeNewlines(Join(lines, '\n') + "\n") == chopped + "\n"
            && Canonical(Join(lines, '\n') + "\n") == chopped
  {
    var text, chopped := Join(lines, '\n'), Join(ChopLines(lines), '\n');
    JoinEnd(lines);
    assert ChopLines(lines)[|lines| - 1] == lines[|lines| - 1];
    JoinEnd(ChopLines(lines));
    NormalizeJoin(lines);
    assert EndsInText(text) && EndsInText(chopped);
    hide *;
    NormalizeTightText(text, chopped);
  }

  lemma NormalizeTightText(text: string, chopped: string)
    requires EndsInText(text) && EndsInText(chopped) && NormalizeNewlines(text) == chopped
    ensures NormalizeNewlines(text + "\n") == chopped + "\n" && Canonical(text + "\n") == chopped
  {
    hide NormalizeNewlines, TrimEnd;
    NormalizeKeepsEnd(text);
    CanonicalOfCore(text);
    TrimEndOfSpaced(chopped, "");
    assert chopped + "" == chopped;
  }

  /** Reading a rendered document back gives the document with chopped lines, and rendering
      that replaces the `\r\n` that were left in the text. */
  lemma ReadBack(d: Document)
    requires TightDocument(d)
    ensures Parse(Render(d)) == ChopDocument(d)
    ensures Render(ChopDocument(d)) == NormalizeNewlines(Render(d))
  {
    ChopTight(d);
    ChopFlatten(d);
    RenderTight(d);
    RenderTight(ChopDocument(d));
    NormalizeTight(Flatten(d));
    hide Flatten, Join, Split, NormalizeNewlines, ParseLines, TrimEnd, ChopDocument, ChopLines, WellFormed, Canonical;
    SplitJoin(Flatten(ChopDocument(d)), '\n');
    ParseAfterFlatten(ChopDocument(d));
  }

  /** Without `\r\n` in the text no line changes. */
  lemma {:induction false} ChopClean(lines: seq<string>)
    requires TightLines(lines) && !HasPair(Join(lines, '\n'), '\r', '\n')
    ensures ChopLines(lines) == lines
  {
    if |lines| > 1 {
      var first, rest := lines[0], Join(lines[1..], '\n');
      PairFreeParts(first, rest);
      ChopClean(lines[1..]);
      assert ChopLines(lines) == [Chop(first)] + ChopLines(lines[1..]);
    }
  }

  lemma PairFreeParts(first: string, rest: string)
    requires !HasPair(first + ['\n'] + rest, '\r', '\n')
    ensures Chop(first) == first && !HasPair(rest, '\r', '\n')
  {
    var text := first + ['\n'] + rest;
    assert text == first + (['\n'] + rest) && text[|first|] == '\n';
    assert first != "" ==> text[|first| - 1] == first[|first| - 1];
    PairFreeTail(first + ['\n'], rest);
    hide HasPair;
    assert first == "" || first[|first| - 1] != '\r' by {
      NoPairAt(text, |first| - 1);
    }
  }

  lemma NoPairAt(text: string, i: int)
    requires !HasPair(text, '\r', '\n')
    ensures 0 <= i < |text| - 1 && text[i + 1] == '\n' ==> text[i] != '\r'
  {
  }

  lemma PairFreeTail(front: string, rest: string)
    requires !HasPair(front + rest, '\r', '\n')
    ensures !HasPair(rest, '\r', '\n')
  {
    var text := front + rest;
    forall i | 0 <= i < |rest| - 1 ensures rest[i] != '\r' || rest[i + 1] != '\n' {
      assert text[|front| + i] == rest[i] && text[|front| + i + 1] == rest[i + 1];
    }
  }
}
