/** Texts on which the duplicate-definition pass is not idempotent. */
module DedupSample {
  import opened CallScan
  import opened DedupLaws
  import opened DedupResults
  import opened DedupText
  import opened DedupTwice
  import opened Options

  // ----- Texts of one form -------------------------------------------------------------------------

  /**
   * A declaration `d`; a definition of `name` in the lines `o`, `m`, `d` and `e`, where `m` ends with
   * the name and `e` opens a parenthesis; and another definition of it in the lines `o` and `c`.
   */
  ghost predicate HasBridge(rx: Patterns, name: string, d: Line, o: Line, m: Line, e: Line, c: Line) {
    && rx.funcDef(o) == Some(name) && rx.externName(o) == None
    && rx.funcDef(d) == None && rx.externName(d).Some?
    && rx.funcDef(m) == rx.funcDef(e) == rx.funcDef(c) == None
    && rx.externName(m) == rx.externName(e) == rx.externName(c) == None
    && LinesBridge(name, d, o, m, e)
    && KeepsBoth(name, [o, m, d, e], [o, c])
  }

  ghost predicate LinesBridge(name: string, d: Line, o: Line, m: Line, e: Line) {
    && IsName(name) && CallsIn(name, o.text) >= 1
    && '{' !in d.text && '}' !in d.text && IsStatement(d.text)
    && NameEnds(name, m.text) && ParenAt(e.text, 0)
  }

  /** Both bodies close, and neither calls its name. */
  ghost predicate KeepsBoth(name: string, first: seq<Line>, second: seq<Line>) {
    ClosesAtEnd(first, 0) && Calls(name, first) < 2 && ClosesAtEnd(second, 0) && Calls(name, second) < 2
  }

  function BridgeChunks(name: string, d: Line, o: Line, m: Line, e: Line, c: Line): seq<Chunk> {
    [Plain(d), Def(name, [o, m, d, e]), Def(name, [o, c])]
  }

  lemma BridgeIsProper(rx: Patterns, name: string, d: Line, o: Line, m: Line, e: Line, c: Line)
    requires HasBridge(rx, name, d, o, m, e, c)
    ensures AllProper(rx, BridgeChunks(name, d, o, m, e, c))
  {
    var chunks := BridgeChunks(name, d, o, m, e, c);
    var last, rest := [chunks[2]], [chunks[1], chunks[2]];
    assert last[1..] == [] && rest[1..] == last && chunks[1..] == rest;
    assert AllProper(rx, last);
    assert AllProper(rx, rest);
  }

  lemma BridgeText(p: Chunk, first: Chunk, second: Chunk)
    ensures Text([p, first, second]) == BodyOf(p) + (BodyOf(first) + BodyOf(second))
  {
    TextStep(second, []);
    TextStep(first, [second]);
    TextStep(p, [first, second]);
    assert [p, first, second] == [p] + [first, second] && [first, second] == [first] + [second];
    assert [second] == [second] + [] && BodyOf(second) + [] == BodyOf(second);
  }

  lemma BridgeIsCut(rx: Patterns, name: string, d: Line, o: Line, m: Line, e: Line, c: Line)
    requires HasBridge(rx, name, d, o, m, e, c)
    ensures var chunks, lines := BridgeChunks(name, d, o, m, e, c), [d, o, m, d, e, o, c];
            Chunks(rx, lines) == chunks && AllProper(rx, chunks)
  {
    var chunks := BridgeChunks(name, d, o, m, e, c);
    BridgeIsProper(rx, name, d, o, m, e, c);
    BridgeText(chunks[0], chunks[1], chunks[2]);
    assert [d] + ([o, m, d, e] + [o, c]) == [d, o, m, d, e, o, c];
    TextCuts(rx, chunks);
  }

  lemma BridgeCopies(name: string, d: Line, o: Line, m: Line, e: Line, c: Line, other: string)
    requires KeepsBoth(name, [o, m, d, e], [o, c])
    ensures var chunks, n := BridgeChunks(name, d, o, m, e, c), if other == name then 2 else 0;
            GoodCopies(chunks, other) == Copies(chunks, other) == n
  {
    var chunks := BridgeChunks(name, d, o, m, e, c);
    var last, rest := [chunks[2]], [chunks[1], chunks[2]];
    assert last[1..] == [] && rest[1..] == last && chunks[1..] == rest;
    var one := if other == name then 1 else 0;
    assert GoodCopies(last, other) == Copies(last, other) == one;
    assert GoodCopies(rest, other) == Copies(rest, other) == one + one;
  }

  lemma BodyIsBridged(rx: Patterns, name: string, x: string, o: Line, m: Line, d: Line, e: Line)
    requires rx.externName(o) == rx.externName(m) == rx.externName(e) == None && rx.externName(d) == Some(x)
    requires NameEnds(name, m.text) && ParenAt(e.text, 0)
    ensures IsBridged(rx, name, {x}, [o, m, d, e])
  {
    var end, between, middle := [e], [d, e], [m, d, e];
    assert between[1..] == end && middle[1..] == between && [o, m, d, e][1..] == middle;
    assert ParenBehindRemoved(rx, {x}, end, true);
    assert ParenBehindRemoved(rx, {x}, between, false);
    assert IsBridged(rx, name, {x}, middle);
  }

  lemma BridgeIsFound(rx: Patterns, name: string, d: Line, o: Line, m: Line, e: Line, c: Line)
    requires HasBridge(rx, name, d, o, m, e, c)
    ensures var chunks := BridgeChunks(name, d, o, m, e, c); !AllUnbridged(rx, chunks, chunks, {})
  {
    var chunks, x := BridgeChunks(name, d, o, m, e, c), rx.externName(d).value;
    BridgeCopies(name, d, o, m, e, c, name);
    BodyIsBridged(rx, name, x, o, m, d, e);
    OneExtern(rx, d);
    assert {} + Externs(rx, BodyOf(chunks[0])) == {x};
    assert chunks[1..][0] == chunks[1];
    assert !AllUnbridged(rx, chunks, chunks[1..], {x});
  }

  lemma BridgeIsC(rx: Patterns, name: string, d: Line, o: Line, m: Line, e: Line, c: Line)
    requires HasBridge(rx, name, d, o, m, e, c)
    ensures var lines := [d, o, m, d, e, o, c]; WellBehaved(rx, lines) && ReadsC(rx, lines)
  {
    assert forall l | l in [d, o, m, d, e, o, c] :: l == d || l == o || l == m || l == e || l == c;
  }

  /** Every text of this form keeps both definitions the first time, and loses one of them the second time. */
  lemma BridgeDropsMore(rx: Patterns, name: string, d: Line, o: Line, m: Line, e: Line, c: Line)
    requires HasBridge(rx, name, d, o, m, e, c)
    ensures var once := Deduped(rx, [d, o, m, d, e, o, c]);
            Copies(Chunks(rx, once), name) == 2 && Copies(Chunks(rx, Deduped(rx, once)), name) < 2
  {
    var lines := [d, o, m, d, e, o, c];
    var once := Deduped(rx, lines);
    BridgeIsCut(rx, name, d, o, m, e, c);
    BridgeIsC(rx, name, d, o, m, e, c);
    BridgeIsFound(rx, name, d, o, m, e, c);
    LostIffBridged(rx, lines);
    var lost :| Copies(Chunks(rx, Deduped(rx, once)), lost) < Copies(Chunks(rx, once), lost);
    BridgeCopies(name, d, o, m, e, c, lost);
    DefinitionsThatRemain(rx, lines, lost);
  }

  // ----- Braces ----------------------------------------------------------------------------------------

  lemma {:induction false} SkipTo(text: string, k: nat, j: nat, depth: int)
    requires k <= j <= |text| && forall i | k <= i < j :: text[i] != '{' && text[i] != '}'
    ensures ScanText(text, k, depth) == ScanText(text, j, depth)
    decreases j - k
  {
    if k < j {
      SkipTo(text, k + 1, j, depth);
    }
  }

  /** A line that opens its only brace at its end, one with no brace, and one that closes at its end. */
  lemma OpensAtEnd(l: Line)
    requires l.text != "" && l.text[|l.text| - 1] == '{'
    requires forall i | 0 <= i < |l.text| - 1 :: l.text[i] != '{' && l.text[i] != '}'
    ensures ScanLine(l, 0) == Open(1)
  {
    SkipTo(l.text, 0, |l.text| - 1, 0);
  }

  lemma StaysOpen(l: Line)
    requires forall i | 0 <= i < |l.text| :: l.text[i] != '{' && l.text[i] != '}'
    ensures ScanLine(l, 1) == Open(1)
  {
    SkipTo(l.text, 0, |l.text|, 1);
  }

  lemma ClosesHere(l: Line)
    requires l.text != "" && l.text[|l.text| - 1] == '}'
    requires forall i | 0 <= i < |l.text| - 1 :: l.text[i] != '{' && l.text[i] != '}'
    ensures ScanLine(l, 1) == Closed
  {
    SkipTo(l.text, 0, |l.text| - 1, 1);
  }

  lemma BodiesClose(d: Line, o: Line, m: Line, e: Line, c: Line)
    requires ScanLine(o, 0) == ScanLine(m, 1) == ScanLine(d, 1) == Open(1)
    requires ScanLine(e, 1) == ScanLine(c, 1) == Closed
    ensures ClosesAtEnd([o, m, d, e], 0) && ClosesAtEnd([o, c], 0)
  {
    var end, between, middle := [e], [d, e], [m, d, e];
    assert ClosesAtEnd(end, 1) && ClosesAtEnd([c], 1);
    assert between[1..] == end && middle[1..] == between && [o, m, d, e][1..] == middle && [o, c][1..] == [c];
    assert ClosesAtEnd(between, 1);
    assert ClosesAtEnd(middle, 1);
  }

  // ----- Calls -----------------------------------------------------------------------------------------

  lemma {:induction false} NoMention(name: string, text: string, i: nat, j: nat)
    requires i <= j <= |text| && name != "" && forall k | i <= k < j :: text[k] != name[0]
    ensures CallsFrom(name, text, i) == CallsFrom(name, text, j)
    decreases j - i
  {
    if i < j {
      if i + |name| <= |text| {
        assert text[i..i + |name|][0] == text[i];
      }
      NoMention(name, text, i + 1, j);
    }
  }

  lemma NeverMentioned(name: string, text: string)
    requires name != "" && name[0] !in text
    ensures CallsIn(name, text) == 0 && !NameEnds(name, text)
  {
    assert forall k | 0 <= k < |text| :: text[k] in text;
    NoMention(name, text, 0, |text|);
    var k := Trimmed(text);
    if |name| <= k && text[k - |name|..k] == name {
      LastOfSlice(name, text, k);
    }
  }

  /** The name stands once in the line, before a parenthesis. */
  lemma OneCall(name: string, text: string, i: nat)
    requires |name| == 1 && 0 < i && i + 1 < |text| && text[i] == name[0] && !IsWord(text[i - 1]) && text[i + 1] == '('
    requires forall k | 0 <= k < |text| && k != i :: text[k] != name[0]
    ensures CallsIn(name, text) == 1
  {
    NoMention(name, text, 0, i);
    assert text[i..i + 1] == name;
    NoMention(name, text, i + 1, |text|);
  }

  /** The name ends the line. */
  lemma NoCallAtEnd(name: string, text: string)
    requires IsName(name) && |name| == 1 && |text| > 1 && text[|text| - 1] == name[0] && !IsWord(text[|text| - 2])
    requires forall k | 0 <= k < |text| - 1 :: text[k] != name[0]
    ensures CallsIn(name, text) == 0 && NameEnds(name, text)
  {
    var last := |text| - 1;
    NoMention(name, text, 0, last);
    assert text[last..last + 1] == name && !ParenAt(text, last + 1);
    assert CallsFrom(name, text, last + 1) == 0;
    assert Trimmed(text) == |text|;
  }

  lemma BodiesDoNotCall(name: string, d: Line, o: Line, m: Line, e: Line, c: Line)
    requires IsName(name) && IsStatement(d.text)
    requires CallsIn(name, o.text) == 1 && !NameEnds(name, o.text)
    requires CallsIn(name, m.text) == CallsIn(name, d.text) == CallsIn(name, e.text) == CallsIn(name, c.text) == 0
    requires !NameEnds(name, e.text) && !NameEnds(name, c.text)
    ensures Calls(name, [o, m, d, e]) == Calls(name, [o, c]) == 1
  {
    var end, between, middle := [e], [d, e], [m, d, e];
    StatementIsSolid(name, d.text);
    LineCallsCons(name, e, []);
    LineCallsCons(name, d, end);
    ParenNextCons(d, end);
    LineCallsCons(name, m, between);
    LineCallsCons(name, o, middle);
    assert [e] + [] == end && [d] + end == between && [m] + between == middle && [o] + middle == [o, m, d, e];
    LineCallsCons(name, c, []);
    LineCallsCons(name, o, [c]);
    assert [c] + [] == [c] && [o] + [c] == [o, c];
    CallsAreLineCalls(name, [o, m, d, e]);
    CallsAreLineCalls(name, [o, c]);
  }

  // ----- The sample ------------------------------------------------------------------------------------

  /** A declaration, a definition with a comment and the declaration again in it, and an empty definition. */
  ghost predicate AreSample(name: string, d: Line, o: Line, m: Line, e: Line, c: Line) {
    && name == "f" && d.text == "extern int x(void);" && o.text == "int f(){" && m.text == "// f"
    && e.text == "(void)0;}" && c.text == "}"
  }

  /** What the two expressions of the pass make of these lines. */
  ghost predicate ReadsSample(rx: Patterns, name: string, d: Line, o: Line, m: Line, e: Line, c: Line) {
    && rx.funcDef(o) == Some(name) && rx.externName(o) == None
    && rx.funcDef(d) == None && rx.externName(d) == Some("x")
    && rx.funcDef(m) == rx.funcDef(e) == rx.funcDef(c) == None
    && rx.externName(m) == rx.externName(e) == rx.externName(c) == None
  }

  lemma SampleDepths(name: string, d: Line, o: Line, m: Line, e: Line, c: Line)
    requires AreSample(name, d, o, m, e, c)
    ensures ClosesAtEnd([o, m, d, e], 0) && ClosesAtEnd([o, c], 0)
  {
    OpensAtEnd(o);
    StaysOpen(m);
    StaysOpen(d);
    ClosesHere(e);
    ClosesHere(c);
    BodiesClose(d, o, m, e, c);
  }

  lemma OpeningLine(name: string, text: string)
    requires name == "f" && text == "int f(){"
    ensures CallsIn(name, text) == 1 && !NameEnds(name, text)
  {
    OneCall(name, text, 4);
    assert text[7..8][0] == '{';
  }

  lemma DeclarationLine(name: string, text: string)
    requires name == "f" && text == "extern int x(void);"
    ensures '{' !in text && '}' !in text && IsStatement(text) && CallsIn(name, text) == 0
  {
    NeverMentioned(name, text);
  }

  lemma EndingLine(name: string, text: string)
    requires name == "f" && (text == "(void)0;}" || text == "}")
    ensures CallsIn(name, text) == 0 && !NameEnds(name, text)
  {
    NeverMentioned(name, text);
  }

  lemma SampleHasBridge(rx: Patterns, name: string, d: Line, o: Line, m: Line, e: Line, c: Line)
    requires AreSample(name, d, o, m, e, c) && ReadsSample(rx, name, d, o, m, e, c)
    ensures HasBridge(rx, name, d, o, m, e, c)
  {
    SampleDepths(name, d, o, m, e, c);
    OpeningLine(name, o.text);
    DeclarationLine(name, d.text);
    NoCallAtEnd(name, m.text);
    EndingLine(name, e.text);
    EndingLine(name, c.text);
    BodiesDoNotCall(name, d, o, m, e, c);
  }

  /** The pass applied twice to these lines drops a definition of `f` that it keeps when applied once. */
  lemma TwiceMayDropMore(rx: Patterns, name: string, d: Line, o: Line, m: Line, e: Line, c: Line)
    requires AreSample(name, d, o, m, e, c) && ReadsSample(rx, name, d, o, m, e, c)
    ensures var once := Deduped(rx, [d, o, m, d, e, o, c]);
            Copies(Chunks(rx, once), name) == 2 && Copies(Chunks(rx, Deduped(rx, once)), name) < 2
  {
    SampleHasBridge(rx, name, d, o, m, e, c);
    BridgeDropsMore(rx, name, d, o, m, e, c);
  }
}
