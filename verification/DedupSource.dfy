/** The duplicate-definition pass on a whole text: splitting at newlines, joining, and the last newline. */
module DedupSource {
  import opened CallScan
  import opened DedupText
  import opened Options

  function Split(src: string): (lines: seq<Line>)
    ensures lines != []
    decreases |src|
  {
    if src == "" then [Line("")]
    else if src[0] == '\n' then [Line("")] + Split(src[1..])
    else
      var rest := Split(src[1..]);
      [Line([src[0]] + rest[0].text)] + rest[1..]
  }

  predicate EndsLine(src: string) {
    src != "" && src[|src| - 1] == '\n'
  }

  function DedupedSource(rx: Patterns, src: string): string {
    var result := Join(Deduped(rx, Split(src)));
    if EndsLine(src) && !EndsLine(result) then result + "\n" else result
  }

  method DedupSourceText(rx: Patterns, src: string) returns (result: string)
    ensures result == DedupedSource(rx, src)
  {
    var kept := DedupCollidingDefinitions(rx, Split(src));
    result := Join(kept);
    if EndsLine(src) && !EndsLine(result) {
      result := result + "\n";
    }
  }

  lemma JoinStep(l: Line, rest: seq<Line>)
    requires rest != []
    ensures Join([l] + rest) == l.text + "\n" + Join(rest)
  {
    assert ([l] + rest)[1..] == rest;
  }

  lemma JoinFirst(c: char, first: Line, rest: seq<Line>)
    ensures Join([Line([c] + first.text)] + rest) == [c] + Join([first] + rest)
  {
    if rest != [] {
      JoinStep(Line([c] + first.text), rest);
      JoinStep(first, rest);
      assert [c] + first.text + "\n" + Join(rest) == [c] + (first.text + "\n" + Join(rest));
    }
  }

  /** Splitting loses nothing. */
  lemma {:induction false} JoinOfSplit(src: string)
    ensures Join(Split(src)) == src
    decreases |src|
  {
    if src != "" {
      JoinOfSplit(src[1..]);
      var rest := Split(src[1..]);
      assert src == [src[0]] + src[1..];
      if src[0] == '\n' {
        JoinStep(Line(""), rest);
      } else {
        JoinFirst(src[0], rest[0], rest[1..]);
        assert [rest[0]] + rest[1..] == rest;
      }
    }
  }

  ghost predicate AreLines(lines: seq<Line>) {
    forall l | l in lines :: '\n' !in l.text
  }

  lemma {:induction false} SplitGivesLines(src: string)
    ensures AreLines(Split(src))
    decreases |src|
  {
    if src != "" {
      SplitGivesLines(src[1..]);
      var rest := Split(src[1..]);
      assert rest[0] in rest && forall l | l in rest[1..] :: l in rest;
    }
  }

  lemma {:induction false} SplitLine(text: string, rest: string)
    requires '\n' !in text
    ensures Split(text + "\n" + rest) == [Line(text)] + Split(rest)
    decreases |text|
  {
    var src := text + "\n" + rest;
    if text == "" {
      assert src[1..] == rest;
    } else {
      assert src[0] == text[0] && text[0] in text && src[1..] == text[1..] + "\n" + rest;
      SplitLine(text[1..], rest);
      assert [text[0]] + text[1..] == text;
      assert ([Line(text[1..])] + Split(rest))[1..] == Split(rest);
    }
  }

  lemma {:induction false} SplitLast(text: string)
    requires '\n' !in text
    ensures Split(text) == [Line(text)]
    decreases |text|
  {
    if text != "" {
      assert text[0] in text;
      SplitLast(text[1..]);
      assert [text[0]] + text[1..] == text;
    }
  }

  /** Lines that are joined are split again as they were. */
  lemma {:induction false} SplitOfJoin(lines: seq<Line>)
    requires lines != [] && AreLines(lines)
    ensures Split(Join(lines)) == lines
  {
    assert lines[0] in lines;
    if |lines| == 1 {
      SplitLast(lines[0].text);
    } else {
      assert forall l | l in lines[1..] :: l in lines;
      SplitOfJoin(lines[1..]);
      SplitLine(lines[0].text, Join(lines[1..]));
      assert lines == [lines[0]] + lines[1..];
    }
  }

  // ----- What the text of the result holds ---------------------------------------------------------

  lemma {:induction false} KeptAreLines(rx: Patterns, lines: seq<Line>, j: nat)
    requires j <= |lines| && AreLines(lines)
    ensures AreLines(Kept(rx, lines, 0, j))
  {
    if j > 0 {
      KeptAreLines(rx, lines, j - 1);
      assert lines[j - 1] in lines;
    }
  }

  /** A definition ends at its first line or at a line with a brace. */
  lemma {:induction false} EndIsNotBlank(lines: seq<Line>, i: nat, j: nat, depth: int)
    requires i <= j <= |lines| && i < |lines|
    ensures EndOfDef(lines, i, j, depth) == i || lines[EndOfDef(lines, i, j, depth)].text != ""
    decreases |lines| - j
  {
    if j < |lines| && ScanLine(lines[j], depth).Open? && ScanLine(lines[j], depth).depth != 0 {
      EndIsNotBlank(lines, i, j + 1, ScanLine(lines[j], depth).depth);
    }
  }

  /** An empty line is neither the start of a definition nor an extern. */
  predicate BlankIsPlain(rx: Patterns) {
    rx.funcDef(Line("")) == None && rx.externName(Line("")) == None
  }

  lemma LastBlankStays(rx: Patterns, lines: seq<Line>)
    requires BlankIsPlain(rx) && lines != [] && lines[|lines| - 1] == Line("")
    ensures !IsRemoved(rx, lines, |lines| - 1)
    ensures var kept := Deduped(rx, lines); kept != [] && kept[|kept| - 1] == Line("")
  {
    var last, rs := |lines| - 1, Ranges(rx, lines, 0);
    HitsAnyIs(lines, rs, rs, last);
    forall r | r in rs
      ensures r.end != last
    {
      RangesStartDefs(rx, lines, 0, r);
      EndIsNotBlank(lines, r.start, r.start, 0);
    }
  }

  lemma {:induction false} EndsLineIs(src: string)
    ensures var lines := Split(src); EndsLine(src) <==> |lines| > 1 && lines[|lines| - 1] == Line("")
    decreases |src|
  {
    if |src| == 1 {
      assert Split(src[1..]) == [Line("")];
    } else if |src| > 1 {
      var rest := src[1..];
      EndsLineIs(rest);
      assert src[|src| - 1] == rest[|rest| - 1];
    }
  }

  /**
   * The result holds exactly the lines that the pass keeps, except that a text whose kept lines are
   * nothing but the empty one behind its last newline comes out as one more empty line, and that a
   * text of which nothing is kept comes out as an empty line.
   */
  lemma LinesOfResult(rx: Patterns, src: string)
    requires BlankIsPlain(rx)
    ensures var kept := Deduped(rx, Split(src));
            Split(DedupedSource(rx, src)) ==
            if kept == [] then [Line("")]
            else if kept == [Line("")] && EndsLine(src) then [Line(""), Line("")]
            else kept
  {
    var lines := Split(src);
    var kept := Deduped(rx, lines);
    SplitGivesLines(src);
    KeptAreLines(rx, lines, |lines|);
    EndsLineIs(src);
    if EndsLine(src) {
      LastBlankStays(rx, lines);
    }
    if kept != [] {
      SplitOfJoin(kept);
      EndsLineIs(Join(kept));
    }
    assert Split("\n") == [Line("")] + Split("") by {
      assert "\n"[1..] == "";
    }
  }

  /** A text from which nothing is removed comes out as it is. */
  lemma NothingRemoved(rx: Patterns, src: string)
    requires Deduped(rx, Split(src)) == Split(src)
    ensures DedupedSource(rx, src) == src
  {
    JoinOfSplit(src);
  }

  // ----- Twice on the text ---------------------------------------------------------------------------

  lemma BlankIsKept(rx: Patterns, lines: seq<Line>, i: nat)
    requires BlankIsPlain(rx) && i < |lines| && forall k | 0 <= k < |lines| :: lines[k] == Line("")
    ensures !IsRemoved(rx, lines, i)
  {
    var rs := Ranges(rx, lines, 0);
    HitsAnyIs(lines, rs, rs, i);
    if rs != [] {
      RangesStartDefs(rx, lines, 0, rs[0]);
    }
  }

  lemma {:induction false} BlankLinesStay(rx: Patterns, lines: seq<Line>, j: nat)
    requires BlankIsPlain(rx) && j <= |lines| && forall k | 0 <= k < |lines| :: lines[k] == Line("")
    ensures Kept(rx, lines, 0, j) == lines[..j]
    decreases j
  {
    if j > 0 {
      BlankIsKept(rx, lines, j - 1);
      BlankLinesStay(rx, lines, j - 1);
      assert lines[..j] == lines[..j - 1] + [lines[j - 1]];
    }
  }

  lemma BlankTextStays(rx: Patterns, lines: seq<Line>)
    requires BlankIsPlain(rx) && forall k | 0 <= k < |lines| :: lines[k] == Line("")
    ensures Deduped(rx, lines) == lines
  {
    BlankLinesStay(rx, lines, |lines|);
    assert lines[..|lines|] == lines;
  }

  lemma ChangedTextIsDifferent(rx: Patterns, src: string)
    requires BlankIsPlain(rx) && Deduped(rx, Split(src)) != Split(src)
    ensures DedupedSource(rx, src) != src
  {
    LinesOfResult(rx, src);
    BlankTextStays(rx, [Line("")]);
    BlankTextStays(rx, [Line(""), Line("")]);
  }

  /** The text comes out of a second pass as it is exactly when the lines kept do. */
  lemma SourceTwiceIsOnceIff(rx: Patterns, src: string)
    requires BlankIsPlain(rx)
    ensures var once, kept := DedupedSource(rx, src), Deduped(rx, Split(src));
            DedupedSource(rx, once) == once <==> Deduped(rx, kept) == kept
  {
    var once, kept := DedupedSource(rx, src), Deduped(rx, Split(src));
    LinesOfResult(rx, src);
    BlankTextStays(rx, []);
    BlankTextStays(rx, [Line("")]);
    BlankTextStays(rx, [Line(""), Line("")]);
    if Deduped(rx, Split(once)) == Split(once) {
      NothingRemoved(rx, once);
    } else {
      ChangedTextIsDifferent(rx, once);
    }
  }
}
