/** When applying the duplicate-definition pass twice is applying it once. */
module DedupTwice {
  import opened CallScan
  import opened DedupLaws
  import opened DedupResults
  import opened DedupText
  import opened Options

  // ----- On the calls counted ---------------------------------------------------------------------

  /**
   * The chunk will be kept by the next pass too: it is dropped now, or its name does not keep two
   * copies, or without its repeated extern lines it still does not call itself.
   */
  predicate IsSettled(rx: Patterns, all: seq<Chunk>, seen: set<string>, c: Chunk) {
    c.Def? && GoodCopies(all, c.name) >= 2 && Calls(c.name, c.body) < 2 ==>
      Calls(c.name, NewLines(rx, seen, c.body)) < 2
  }

  predicate AllSettled(rx: Patterns, all: seq<Chunk>, chunks: seq<Chunk>, seen: set<string>) {
    chunks == [] ||
    (IsSettled(rx, all, seen, chunks[0]) && AllSettled(rx, all, chunks[1..], seen + Externs(rx, BodyOf(chunks[0]))))
  }

  /** Nothing in these chunks would be dropped by a pass over `all`. */
  ghost predicate NothingDropped(all: seq<Chunk>, chunks: seq<Chunk>) {
    chunks == [] || (!Drops(all, chunks[0]) && NothingDropped(all, chunks[1..]))
  }

  lemma {:induction false} GoodCopiesAreCopies(chunks: seq<Chunk>, name: string)
    ensures GoodCopies(chunks, name) <= Copies(chunks, name)
    decreases |chunks|
  {
    if chunks != [] {
      GoodCopiesAreCopies(chunks[1..], name);
    }
  }

  /** What is left has two copies of a name exactly when the text has two that do not call themselves. */
  ghost predicate KeepsGoodCopies(all: seq<Chunk>, all': seq<Chunk>) {
    forall name :: Copies(all', name) >= 2 <==> GoodCopies(all, name) >= 2
  }

  lemma PassKeepsGoodCopies(rx: Patterns, all: seq<Chunk>)
    ensures KeepsGoodCopies(all, DedupChunks(rx, all))
  {
    forall name
      ensures Copies(DedupChunks(rx, all), name) >= 2 <==> GoodCopies(all, name) >= 2
    {
      PassCopies(rx, all, all, {}, name);
      GoodCopiesAreCopies(all, name);
    }
  }

  lemma LeftIsSettled(rx: Patterns, all: seq<Chunk>, seen: set<string>, c: Chunk, all': seq<Chunk>)
    requires KeepsGoodCopies(all, all')
    ensures NothingDropped(all', Left(rx, all, seen, c)) <==> IsSettled(rx, all, seen, c)
    ensures |Left(rx, all, seen, c)| <= 1
  {
    if c.Def? {
      GoodCopiesAreCopies(all, c.name);
      var left := Def(c.name, NewLines(rx, seen, c.body));
      assert [left][1..] == [];
      assert NothingDropped(all', [left]) <==> !Drops(all', left);
    } else {
      assert [c][1..] == [];
    }
  }

  lemma NothingDroppedConcat(all: seq<Chunk>, a: seq<Chunk>, b: seq<Chunk>)
    requires |a| <= 1
    ensures NothingDropped(all, a + b) <==> NothingDropped(all, a) && NothingDropped(all, b)
  {
    if a == [] {
      assert a + b == b;
    } else {
      assert (a + b)[1..] == b && a[1..] == [];
    }
  }

  lemma {:induction false} PassIsSettled(rx: Patterns, all: seq<Chunk>, chunks: seq<Chunk>, seen: set<string>, all': seq<Chunk>)
    requires KeepsGoodCopies(all, all')
    ensures NothingDropped(all', Pass(rx, all, chunks, seen)) <==> AllSettled(rx, all, chunks, seen)
    decreases |chunks|
  {
    if chunks != [] {
      var c, seen' := chunks[0], seen + Externs(rx, BodyOf(chunks[0]));
      PassIsSettled(rx, all, chunks[1..], seen', all');
      LeftIsSettled(rx, all, seen, c, all');
      NothingDroppedConcat(all', Left(rx, all, seen, c), Pass(rx, all, chunks[1..], seen'));
    }
  }

  ghost predicate NoneEmpty(chunks: seq<Chunk>) {
    chunks == [] || (BodyOf(chunks[0]) != [] && NoneEmpty(chunks[1..]))
  }

  lemma {:induction false} ProperIsNotEmpty(rx: Patterns, chunks: seq<Chunk>)
    requires AllProper(rx, chunks)
    ensures NoneEmpty(chunks)
  {
    if chunks != [] {
      ProperIsNotEmpty(rx, chunks[1..]);
    }
  }

  lemma {:induction false} PassOfFresh(rx: Patterns, all: seq<Chunk>, chunks: seq<Chunk>, seen: set<string>)
    requires NothingDropped(all, chunks) && Fresh(rx, seen, Text(chunks)) && NoneEmpty(chunks)
    ensures Pass(rx, all, chunks, seen) == chunks
    decreases |chunks|
  {
    if chunks != [] {
      var c, rest := chunks[0], chunks[1..];
      FreshConcat(rx, seen, BodyOf(c), Text(rest));
      PassOfFresh(rx, all, rest, seen + Externs(rx, BodyOf(c)));
      FreshChunkStays(rx, all, seen, c);
    }
  }

  lemma FreshChunkStays(rx: Patterns, all: seq<Chunk>, seen: set<string>, c: Chunk)
    requires !Drops(all, c) && Fresh(rx, seen, BodyOf(c)) && BodyOf(c) != []
    ensures Left(rx, all, seen, c) == [c]
  {
  }

  lemma {:induction false} PassShrinks(rx: Patterns, all: seq<Chunk>, chunks: seq<Chunk>, seen: set<string>)
    requires NoneEmpty(chunks)
    ensures |PassText(rx, all, chunks, seen)| <= |Text(chunks)|
    ensures !NothingDropped(all, chunks) ==> |PassText(rx, all, chunks, seen)| < |Text(chunks)|
    decreases |chunks|
  {
    if chunks != [] {
      PassShrinks(rx, all, chunks[1..], seen + Externs(rx, BodyOf(chunks[0])));
    }
  }

  /** On a text of fresh externs the pass changes nothing exactly when it drops nothing. */
  lemma UnchangedIffNothingDropped(rx: Patterns, chunks: seq<Chunk>)
    requires NoneEmpty(chunks) && Fresh(rx, {}, Text(chunks))
    ensures Text(DedupChunks(rx, chunks)) == Text(chunks) <==> NothingDropped(chunks, chunks)
  {
    PassTextIs(rx, chunks, chunks, {});
    PassShrinks(rx, chunks, chunks, {});
    if NothingDropped(chunks, chunks) {
      PassOfFresh(rx, chunks, chunks, {});
    }
  }

  /** Twice is once exactly when every definition is settled. */
  lemma TwiceIsOnceIffSettled(rx: Patterns, lines: seq<Line>)
    requires WellBehaved(rx, lines) && AllClose(rx, lines)
    ensures Deduped(rx, Deduped(rx, lines)) == Deduped(rx, lines) <==>
            AllSettled(rx, Chunks(rx, lines), Chunks(rx, lines), {})
  {
    var all, out := Chunks(rx, lines), Deduped(rx, lines);
    var all' := DedupChunks(rx, all);
    OutputChunks(rx, lines);
    DedupedIsPass(rx, lines);
    DedupedIsPass(rx, out);
    PassTextIs(rx, all, all, {});
    PassIsFresh(rx, all, all, {});
    ProperIsNotEmpty(rx, all');
    UnchangedIffNothingDropped(rx, all');
    PassKeepsGoodCopies(rx, all);
    PassIsSettled(rx, all, all, {}, all');
  }

  // ----- On the extern lines in between -----------------------------------------------------------

  /** A declaration neither opens a parenthesis first nor ends in a word. */
  predicate IsStatement(text: string) {
    !ParenAt(text, 0) && Trimmed(text) > 0 && !IsWord(text[Trimmed(text) - 1])
  }

  /**
   * What the two expressions make sure of on the lines of the text: an extern line is a whole
   * declaration, and a line that starts a definition holds its name and the parenthesis.
   */
  ghost predicate ReadsC(rx: Patterns, lines: seq<Line>) {
    forall l | l in lines ::
      && (rx.externName(l).Some? ==> IsStatement(l.text))
      && (rx.funcDef(l).Some? ==> IsName(rx.funcDef(l).value) && CallsIn(rx.funcDef(l).value, l.text) >= 1)
  }

  predicate IsOut(rx: Patterns, seen: set<string>, l: Line) {
    rx.externName(l).Some? && rx.externName(l).value in seen
  }

  function SeenAfter(rx: Patterns, seen: set<string>, l: Line): set<string> {
    if rx.externName(l).Some? then seen + {rx.externName(l).value} else seen
  }

  /** Behind blank lines and removed extern lines, one of the latter at least or `crossed`, a parenthesis opens. */
  predicate ParenBehindRemoved(rx: Patterns, seen: set<string>, lines: seq<Line>, crossed: bool)
    decreases |lines|
  {
    lines != [] &&
    if IsOut(rx, seen, lines[0]) then ParenBehindRemoved(rx, seen, lines[1..], true)
    else if ParenAt(lines[0].text, 0) then crossed
    else BlankFrom(lines[0].text, 0) && ParenBehindRemoved(rx, SeenAfter(rx, seen, lines[0]), lines[1..], crossed)
  }

  /** A removed extern line stands between the name at the end of a line and an opening parenthesis. */
  predicate IsBridged(rx: Patterns, name: string, seen: set<string>, lines: seq<Line>)
    decreases |lines|
  {
    lines != [] &&
    if IsOut(rx, seen, lines[0]) then IsBridged(rx, name, seen, lines[1..])
    else
      var seen' := SeenAfter(rx, seen, lines[0]);
      || (NameEnds(name, lines[0].text) && ParenBehindRemoved(rx, seen', lines[1..], false))
      || IsBridged(rx, name, seen', lines[1..])
  }

  lemma NewLinesStep(rx: Patterns, seen: set<string>, lines: seq<Line>)
    requires lines != []
    ensures NewLines(rx, seen, lines) ==
            if IsOut(rx, seen, lines[0]) then NewLines(rx, seen, lines[1..])
            else [lines[0]] + NewLines(rx, SeenAfter(rx, seen, lines[0]), lines[1..])
  {
  }

  lemma ParenNextCons(l: Line, rest: seq<Line>)
    ensures ParenNext([l] + rest) <==> ParenAt(l.text, 0) || (BlankFrom(l.text, 0) && ParenNext(rest))
  {
    assert ([l] + rest)[1..] == rest;
  }

  lemma LineCallsCons(name: string, l: Line, rest: seq<Line>)
    ensures LineCalls(name, [l] + rest) ==
            CallsIn(name, l.text) + (if NameEnds(name, l.text) && ParenNext(rest) then 1 else 0) + LineCalls(name, rest)
  {
    assert ([l] + rest)[1..] == rest;
  }

  lemma LastOfSlice(name: string, text: string, k: nat)
    requires 0 < |name| <= k <= |text| && text[k - |name|..k] == name
    ensures text[k - 1] == name[|name| - 1] && text[k - |name|] == name[0]
  {
    assert text[k - 1] == text[k - |name|..k][|name| - 1] && text[k - |name|] == text[k - |name|..k][0];
  }

  lemma StatementIsSolid(name: string, text: string)
    requires IsStatement(text) && IsName(name)
    ensures !BlankFrom(text, 0) && !ParenAt(text, 0) && !NameEnds(name, text)
  {
    BlankFromTrimmed(text, 0);
    var k := Trimmed(text);
    if |name| <= k && text[k - |name|..k] == name {
      LastOfSlice(name, text, k);
    }
  }

  /** A parenthesis that comes next only after the removal has a removed line before it. */
  lemma {:induction false} ParenMovesUp(rx: Patterns, name: string, seen: set<string>, lines: seq<Line>, crossed: bool)
    requires ReadsC(rx, lines) && IsName(name)
    ensures ParenBehindRemoved(rx, seen, lines, crossed) <==>
            ParenNext(NewLines(rx, seen, lines)) && (crossed || !ParenNext(lines))
    decreases |lines|
  {
    if lines != [] {
      var l, rest := lines[0], lines[1..];
      assert l in lines && ReadsC(rx, rest);
      NewLinesStep(rx, seen, lines);
      if IsOut(rx, seen, l) {
        StatementIsSolid(name, l.text);
        ParenMovesUp(rx, name, seen, rest, true);
      } else {
        var seen' := SeenAfter(rx, seen, l);
        ParenMovesUp(rx, name, seen', rest, crossed);
        ParenNextCons(l, NewLines(rx, seen', rest));
        BlankOpensNothing(l.text);
      }
    }
  }

  lemma BlankOpensNothing(text: string)
    ensures !(BlankFrom(text, 0) && ParenAt(text, 0))
  {
    ParenAcross(text + "\n" + "", text, "", 0);
  }

  /** Without a bridge the removal makes no call. */
  lemma {:induction false} UnbridgedMakesNoCall(rx: Patterns, name: string, seen: set<string>, lines: seq<Line>)
    requires ReadsC(rx, lines) && IsName(name) && !IsBridged(rx, name, seen, lines)
    ensures LineCalls(name, NewLines(rx, seen, lines)) <= LineCalls(name, lines)
    decreases |lines|
  {
    if lines != [] {
      var l, rest := lines[0], lines[1..];
      assert l in lines && ReadsC(rx, rest);
      NewLinesStep(rx, seen, lines);
      if IsOut(rx, seen, l) {
        UnbridgedMakesNoCall(rx, name, seen, rest);
      } else {
        var seen' := SeenAfter(rx, seen, l);
        UnbridgedMakesNoCall(rx, name, seen', rest);
        ParenMovesUp(rx, name, seen', rest, false);
        LineCallsCons(name, l, NewLines(rx, seen', rest));
      }
    }
  }

  /** A bridge makes a call. */
  lemma {:induction false} BridgeMakesACall(rx: Patterns, name: string, seen: set<string>, lines: seq<Line>)
    requires ReadsC(rx, lines) && IsName(name) && IsBridged(rx, name, seen, lines)
    ensures LineCalls(name, NewLines(rx, seen, lines)) >= 1
    ensures !IsOut(rx, seen, lines[0]) ==> LineCalls(name, NewLines(rx, seen, lines)) >= 1 + CallsIn(name, lines[0].text)
    decreases |lines|
  {
    var l, rest := lines[0], lines[1..];
    assert l in lines && ReadsC(rx, rest);
    NewLinesStep(rx, seen, lines);
    if IsOut(rx, seen, l) {
      BridgeMakesACall(rx, name, seen, rest);
    } else {
      var seen' := SeenAfter(rx, seen, l);
      ParenMovesUp(rx, name, seen', rest, false);
      LineCallsCons(name, l, NewLines(rx, seen', rest));
      if IsBridged(rx, name, seen', rest) {
        BridgeMakesACall(rx, name, seen', rest);
      }
    }
  }

  /** No copy that stays beside another one has its name bridged to a parenthesis. */
  predicate AllUnbridged(rx: Patterns, all: seq<Chunk>, chunks: seq<Chunk>, seen: set<string>) {
    chunks != [] ==>
      && (chunks[0].Def? && GoodCopies(all, chunks[0].name) >= 2 && Calls(chunks[0].name, chunks[0].body) < 2 ==>
            !IsBridged(rx, chunks[0].name, seen, chunks[0].body))
      && AllUnbridged(rx, all, chunks[1..], seen + Externs(rx, BodyOf(chunks[0])))
  }

  lemma SettledIffUnbridged(rx: Patterns, name: string, seen: set<string>, body: seq<Line>)
    requires body != [] && rx.funcDef(body[0]) == Some(name) && rx.externName(body[0]) == None
    requires ReadsC(rx, body) && Calls(name, body) < 2
    ensures Calls(name, NewLines(rx, seen, body)) < 2 <==> !IsBridged(rx, name, seen, body)
  {
    assert body[0] in body;
    CallsAreLineCalls(name, body);
    CallsAreLineCalls(name, NewLines(rx, seen, body));
    if IsBridged(rx, name, seen, body) {
      BridgeMakesACall(rx, name, seen, body);
    } else {
      UnbridgedMakesNoCall(rx, name, seen, body);
    }
  }

  lemma ReadsCParts(rx: Patterns, a: seq<Line>, b: seq<Line>)
    requires ReadsC(rx, a + b)
    ensures ReadsC(rx, a) && ReadsC(rx, b)
  {
    assert forall l | l in a :: l in a + b;
    assert forall l | l in b :: l in a + b;
  }

  lemma {:induction false} AllSettledIffUnbridged(rx: Patterns, all: seq<Chunk>, chunks: seq<Chunk>, seen: set<string>)
    requires AllProper(rx, chunks) && WellBehaved(rx, Text(chunks)) && ReadsC(rx, Text(chunks))
    ensures AllSettled(rx, all, chunks, seen) <==> AllUnbridged(rx, all, chunks, seen)
    decreases |chunks|
  {
    if chunks != [] {
      var c, rest := chunks[0], chunks[1..];
      WellBehavedParts(rx, BodyOf(c), Text(rest));
      ReadsCParts(rx, BodyOf(c), Text(rest));
      AllSettledIffUnbridged(rx, all, rest, seen + Externs(rx, BodyOf(c)));
      if c.Def? && Calls(c.name, c.body) < 2 {
        assert c.body[0] in c.body;
        SettledIffUnbridged(rx, c.name, seen, c.body);
      }
    }
  }

  /**
   * Twice is once exactly when no removed extern line stands between the name of a definition, at
   * the end of one of its lines, and an opening parenthesis; definitions that are dropped anyway, or
   * whose name keeps no second copy, do not matter.
   */
  lemma TwiceIsOnceIffUnbridged(rx: Patterns, lines: seq<Line>)
    requires WellBehaved(rx, lines) && AllClose(rx, lines) && ReadsC(rx, lines)
    ensures Deduped(rx, Deduped(rx, lines)) == Deduped(rx, lines) <==>
            AllUnbridged(rx, Chunks(rx, lines), Chunks(rx, lines), {})
  {
    ParseIsText(rx, lines, 0);
    assert lines[0..] == lines;
    TwiceIsOnceIffSettled(rx, lines);
    AllSettledIffUnbridged(rx, Chunks(rx, lines), Chunks(rx, lines), {});
  }

  // ----- What the second pass takes ----------------------------------------------------------------

  lemma {:induction false} DroppedChunkIsThere(all: seq<Chunk>, chunks: seq<Chunk>) returns (c: Chunk)
    requires !NothingDropped(all, chunks)
    ensures c in chunks && Drops(all, c)
    decreases |chunks|
  {
    if Drops(all, chunks[0]) {
      c := chunks[0];
    } else {
      c := DroppedChunkIsThere(all, chunks[1..]);
    }
  }

  lemma {:induction false} OneIsNotGood(chunks: seq<Chunk>, c: Chunk)
    requires c in chunks && c.Def? && Calls(c.name, c.body) >= 2
    ensures GoodCopies(chunks, c.name) < Copies(chunks, c.name)
    decreases |chunks|
  {
    if c == chunks[0] {
      GoodCopiesAreCopies(chunks[1..], c.name);
    } else {
      OneIsNotGood(chunks[1..], c);
    }
  }

  /** Some name is defined less often after the pass than before it. */
  ghost predicate LosesACopy(rx: Patterns, lines: seq<Line>) {
    exists name :: Copies(Chunks(rx, Deduped(rx, lines)), name) < Copies(Chunks(rx, lines), name)
  }

  lemma FreshTextLosesACopyIff(rx: Patterns, lines: seq<Line>)
    requires WellBehaved(rx, lines) && AllClose(rx, lines) && Fresh(rx, {}, lines)
    ensures LosesACopy(rx, lines) <==> Deduped(rx, lines) != lines
  {
    var all := Chunks(rx, lines);
    ParseIsText(rx, lines, 0);
    assert lines[0..] == lines;
    ProperIsNotEmpty(rx, all);
    DedupedIsPass(rx, lines);
    PassTextIs(rx, all, all, {});
    UnchangedIffNothingDropped(rx, all);
    if Deduped(rx, lines) != lines {
      var c := DroppedChunkIsThere(all, all);
      OneIsNotGood(all, c);
      DefinitionsThatRemain(rx, lines, c.name);
      assert Copies(Chunks(rx, Deduped(rx, lines)), c.name) < Copies(all, c.name);
    }
  }

  lemma OutputIsWellBehaved(rx: Patterns, lines: seq<Line>)
    requires WellBehaved(rx, lines)
    ensures WellBehaved(rx, Deduped(rx, lines))
  {
    OutputIsSubsequence(rx, lines, |lines|);
    SubsequenceMembers(Deduped(rx, lines), lines);
  }

  lemma {:induction false} SubsequenceMembers(a: seq<Line>, b: seq<Line>)
    requires IsSubsequence(a, b)
    ensures forall l | l in a :: l in b
    decreases |b|
  {
    if a != [] {
      var (a0, a1, b0) := (a[..|a| - 1], a[|a| - 1], b[..|b| - 1]);
      if a1 == b[|b| - 1] && IsSubsequence(a0, b0) {
        SubsequenceMembers(a0, b0);
        assert a == a0 + [a1];
      } else {
        SubsequenceMembers(a, b0);
      }
    }
  }

  /** A second pass that changes anything takes a definition away that the first one has kept. */
  lemma TwiceIsOnceIffNoneIsLost(rx: Patterns, lines: seq<Line>)
    requires WellBehaved(rx, lines) && AllClose(rx, lines)
    ensures Deduped(rx, Deduped(rx, lines)) == Deduped(rx, lines) <==> !LosesACopy(rx, Deduped(rx, lines))
  {
    OutputChunks(rx, lines);
    OutputIsWellBehaved(rx, lines);
    DedupedIsPass(rx, lines);
    PassTextIs(rx, Chunks(rx, lines), Chunks(rx, lines), {});
    PassIsFresh(rx, Chunks(rx, lines), Chunks(rx, lines), {});
    FreshTextLosesACopyIff(rx, Deduped(rx, lines));
  }

  /** On lines of C: a definition is lost exactly when a removed extern line bridges a kept copy. */
  lemma LostIffBridged(rx: Patterns, lines: seq<Line>)
    requires WellBehaved(rx, lines) && AllClose(rx, lines) && ReadsC(rx, lines)
    ensures LosesACopy(rx, Deduped(rx, lines)) <==> !AllUnbridged(rx, Chunks(rx, lines), Chunks(rx, lines), {})
  {
    TwiceIsOnceIffUnbridged(rx, lines);
    TwiceIsOnceIffNoneIsLost(rx, lines);
  }
}
