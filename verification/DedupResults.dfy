/** The promises of the duplicate-definition pass. */
module DedupResults {
  import opened CallScan
  import opened DedupLaws
  import opened DedupText
  import opened Options

  // ----- On every text ---------------------------------------------------------------------------

  ghost predicate IsSubsequence(a: seq<Line>, b: seq<Line>)
    decreases |b|
  {
    if a == [] then true
    else if b == [] then false
    else
      var (a0, a1, b0, b1) := (a[..|a| - 1], a[|a| - 1], b[..|b| - 1], b[|b| - 1]);
      (a1 == b1 && IsSubsequence(a0, b0)) || IsSubsequence(a, b0)
  }

  lemma KeptStep(rx: Patterns, lines: seq<Line>, j: nat)
    requires 0 < j <= |lines|
    ensures var was, now := Kept(rx, lines, 0, j - 1), Kept(rx, lines, 0, j);
            if IsRemoved(rx, lines, j - 1) then now == was
            else now == was + [lines[j - 1]] && now[..|was|] == was
  {
  }

  /** Lines are only ever removed. */
  lemma {:induction false} OutputIsSubsequence(rx: Patterns, lines: seq<Line>, j: nat)
    requires j <= |lines|
    ensures IsSubsequence(Kept(rx, lines, 0, j), lines[..j])
    ensures j == |lines| ==> IsSubsequence(Deduped(rx, lines), lines)
    decreases j
  {
    if j > 0 {
      OutputIsSubsequence(rx, lines, j - 1);
      assert lines[..j][..j - 1] == lines[..j - 1];
      KeptStep(rx, lines, j);
    }
    assert lines[..|lines|] == lines;
  }

  lemma {:induction false} ExternsOfKept(rx: Patterns, lines: seq<Line>, i: nat, n: string, j: nat)
    requires i < |lines| && rx.externName(lines[i]) == Some(n) && n !in Externs(rx, lines[..i]) && j <= |lines|
    ensures n in Externs(rx, Kept(rx, lines, 0, j)) <==> i < j && !InDropped(rx, lines, i)
    ensures n in Externs(rx, lines[..j]) <==> i < j
    decreases j
  {
    if j > 0 {
      ExternsOfKept(rx, lines, i, n, j - 1);
      if j - 1 < i {
        ExternsGrow(rx, lines, j, i);
      }
      ExternsStep(rx, lines, j);
    }
  }

  lemma ExternsStep(rx: Patterns, lines: seq<Line>, j: nat)
    requires 0 < j <= |lines|
    ensures var own := Externs(rx, [lines[j - 1]]);
            && Externs(rx, lines[..j]) == Externs(rx, lines[..j - 1]) + own
            && Externs(rx, Kept(rx, lines, 0, j)) ==
               Externs(rx, Kept(rx, lines, 0, j - 1)) + if IsRemoved(rx, lines, j - 1) then {} else own
    ensures rx.externName(lines[j - 1]).Some? ==> Externs(rx, [lines[j - 1]]) == {rx.externName(lines[j - 1]).value}
    ensures rx.externName(lines[j - 1]).None? ==> Externs(rx, [lines[j - 1]]) == {}
  {
    OneExtern(rx, lines[j - 1]);
    assert lines[..j] == lines[..j - 1] + [lines[j - 1]];
    ExternsConcat(rx, lines[..j - 1], [lines[j - 1]]);
    ExternsConcat(rx, Kept(rx, lines, 0, j - 1), [lines[j - 1]]);
    KeptStep(rx, lines, j);
  }

  lemma {:induction false} ExternsGrow(rx: Patterns, lines: seq<Line>, j: nat, k: nat)
    requires j <= k <= |lines|
    ensures Externs(rx, lines[..j]) <= Externs(rx, lines[..k])
    decreases k
  {
    if j < k {
      ExternsGrow(rx, lines, j, k - 1);
      assert lines[..k][..k - 1] == lines[..k - 1];
    }
  }

  /** An extern survives exactly when its first declaration is outside the dropped definitions. */
  lemma ExternSurvivesIff(rx: Patterns, lines: seq<Line>, i: nat, n: string)
    requires i < |lines| && rx.externName(lines[i]) == Some(n) && n !in Externs(rx, lines[..i])
    ensures n in Externs(rx, Deduped(rx, lines)) <==> !InDropped(rx, lines, i)
  {
    ExternsOfKept(rx, lines, i, n, |lines|);
  }

  // ----- Externs are declared once ---------------------------------------------------------------

  /** No extern of `lines` is in `seen` or declared twice. */
  ghost predicate Fresh(rx: Patterns, seen: set<string>, lines: seq<Line>) {
    NewLines(rx, seen, lines) == lines
  }

  lemma {:induction false} NewLinesAreFresh(rx: Patterns, seen: set<string>, lines: seq<Line>)
    ensures Fresh(rx, seen, NewLines(rx, seen, lines))
    ensures Externs(rx, NewLines(rx, seen, lines)) <= Externs(rx, lines)
    decreases |lines|
  {
    if lines != [] {
      var l, rest := lines[0], lines[1..];
      assert lines == [l] + rest;
      ExternsConcat(rx, [l], rest);
      OneExtern(rx, l);
      var n := rx.externName(l);
      if n == None || n.value !in seen {
        var seen' := if n == None then seen else seen + {n.value};
        var tail := NewLines(rx, seen', rest);
        NewLinesAreFresh(rx, seen', rest);
        assert ([l] + tail)[1..] == tail;
        ExternsConcat(rx, [l], tail);
      } else {
        NewLinesAreFresh(rx, seen, rest);
      }
    }
  }

  lemma {:induction false} FreshForFewer(rx: Patterns, seen: set<string>, fewer: set<string>, lines: seq<Line>)
    requires Fresh(rx, seen, lines) && fewer <= seen
    ensures Fresh(rx, fewer, lines)
    decreases |lines|
  {
    if lines != [] {
      var n, rest := rx.externName(lines[0]), lines[1..];
      FreshFirst(rx, seen, lines);
      if n == None {
        FreshForFewer(rx, seen, fewer, rest);
      } else {
        FreshForFewer(rx, seen + {n.value}, fewer + {n.value}, rest);
      }
      assert lines == [lines[0]] + rest;
    }
  }

  lemma FreshFirst(rx: Patterns, seen: set<string>, lines: seq<Line>)
    requires lines != [] && Fresh(rx, seen, lines)
    ensures match rx.externName(lines[0])
            case None => Fresh(rx, seen, lines[1..])
            case Some(n) => n !in seen && Fresh(rx, seen + {n}, lines[1..])
  {
    match rx.externName(lines[0]) {
      case None => assert ([lines[0]] + NewLines(rx, seen, lines[1..]))[1..] == NewLines(rx, seen, lines[1..]);
      case Some(n) =>
        if n !in seen {
          assert ([lines[0]] + NewLines(rx, seen + {n}, lines[1..]))[1..] == NewLines(rx, seen + {n}, lines[1..]);
        }
    }
  }

  lemma FreshConcat(rx: Patterns, seen: set<string>, a: seq<Line>, b: seq<Line>)
    ensures Fresh(rx, seen, a) && Fresh(rx, seen + Externs(rx, a), b) ==> Fresh(rx, seen, a + b)
    ensures Fresh(rx, seen, a + b) ==> Fresh(rx, seen, a) && Fresh(rx, seen + Externs(rx, a), b)
  {
    NewLinesConcat(rx, seen, a, b);
    var a', b' := NewLines(rx, seen, a), NewLines(rx, seen + Externs(rx, a), b);
    if a' + b' == a + b {
      assert |a'| <= |a| && |b'| <= |b|;
      assert (a' + b')[..|a|] == a' && (a + b)[..|a|] == a;
      assert (a' + b')[|a|..] == b' && (a + b)[|a|..] == b;
    }
  }

  lemma {:induction false} PassIsFresh(rx: Patterns, all: seq<Chunk>, chunks: seq<Chunk>, seen: set<string>)
    ensures Fresh(rx, seen, PassText(rx, all, chunks, seen))
    decreases |chunks|
  {
    if chunks != [] {
      var body := BodyOf(chunks[0]);
      var own := Own(rx, all, seen, chunks[0]);
      var seen' := seen + Externs(rx, body);
      var rest := PassText(rx, all, chunks[1..], seen');
      NewLinesAreFresh(rx, seen, body);
      PassIsFresh(rx, all, chunks[1..], seen');
      FreshForFewer(rx, seen', seen + Externs(rx, own), rest);
      FreshConcat(rx, seen, own, rest);
    }
  }

  lemma {:induction false} FreshMeansOnce(rx: Patterns, seen: set<string>, lines: seq<Line>, i: nat, j: nat, n: string)
    requires Fresh(rx, seen, lines) && i < |lines| && rx.externName(lines[i]) == Some(n)
    ensures n !in seen
    ensures i < j < |lines| ==> rx.externName(lines[j]) != Some(n)
    decreases |lines|
  {
    FreshFirst(rx, seen, lines);
    var first := rx.externName(lines[0]);
    var seen' := if first == None then seen else seen + {first.value};
    if i > 0 {
      FreshMeansOnce(rx, seen', lines[1..], i - 1, if j > 0 then j - 1 else 0, n);
    } else if i < j < |lines| && rx.externName(lines[j]) == Some(n) {
      FreshMeansOnce(rx, seen', lines[1..], j - 1, j - 1, n);
    }
  }

  /** After the pass no extern name is declared twice. */
  lemma ExternsOccurOnce(rx: Patterns, lines: seq<Line>, i: nat, j: nat, n: string)
    requires var out := Deduped(rx, lines); i < j < |out| && rx.externName(out[i]) == Some(n)
    ensures rx.externName(Deduped(rx, lines)[j]) != Some(n)
  {
    DedupedIsPass(rx, lines);
    PassTextIs(rx, Chunks(rx, lines), Chunks(rx, lines), {});
    PassIsFresh(rx, Chunks(rx, lines), Chunks(rx, lines), {});
    FreshMeansOnce(rx, {}, Deduped(rx, lines), i, j, n);
  }

  // ----- On texts whose definitions close ----------------------------------------------------------

  /** The extern lines of the text hold no braces and start no definition. */
  ghost predicate WellBehaved(rx: Patterns, lines: seq<Line>) {
    forall l | l in lines && rx.externName(l).Some? :: '{' !in l.text && '}' !in l.text && rx.funcDef(l) == None
  }

  lemma WellBehavedParts(rx: Patterns, a: seq<Line>, b: seq<Line>)
    requires WellBehaved(rx, a + b)
    ensures WellBehaved(rx, a) && WellBehaved(rx, b)
  {
    assert forall l | l in a :: l in a + b;
    assert forall l | l in b :: l in a + b;
  }

  lemma {:induction false} NoBracesNoDepth(text: string, k: nat, depth: int)
    requires k <= |text| && '{' !in text && '}' !in text
    ensures ScanText(text, k, depth) == Open(depth)
    decreases |text| - k
  {
    if k < |text| {
      assert text[k] in text;
      NoBracesNoDepth(text, k + 1, depth);
    }
  }

  lemma {:induction false} ThinnedCloses(rx: Patterns, seen: set<string>, body: seq<Line>, depth: int)
    requires WellBehaved(rx, body) && ClosesAtEnd(body, depth)
    ensures ClosesAtEnd(NewLines(rx, seen, body), depth)
    ensures rx.externName(body[0]) == None ==> NewLines(rx, seen, body)[0] == body[0]
    decreases |body|
  {
    var l, rest := body[0], body[1..];
    var n := rx.externName(l);
    assert l in body && WellBehaved(rx, rest);
    if n.Some? {
      NoBracesNoDepth(l.text, 0, depth);
    }
    var seen' := if n == None || n.value in seen then seen else seen + {n.value};
    match ScanLine(l, depth) {
      case Closed => assert NewLines(rx, seen, rest) == [];
      case Open(d) =>
        ThinnedCloses(rx, seen', rest, d);
        assert ([l] + NewLines(rx, seen', rest))[1..] == NewLines(rx, seen', rest);
    }
  }

  lemma {:induction false} PassIsProper(rx: Patterns, all: seq<Chunk>, chunks: seq<Chunk>, seen: set<string>)
    requires WellBehaved(rx, Text(chunks)) && AllProper(rx, chunks)
    ensures AllProper(rx, Pass(rx, all, chunks, seen))
    decreases |chunks|
  {
    if chunks != [] {
      var c, seen' := chunks[0], seen + Externs(rx, BodyOf(chunks[0]));
      var left, rest := Left(rx, all, seen, c), Pass(rx, all, chunks[1..], seen');
      WellBehavedParts(rx, BodyOf(c), Text(chunks[1..]));
      PassIsProper(rx, all, chunks[1..], seen');
      if c.Def? {
        assert c.body[0] in c.body;
        ThinnedCloses(rx, seen, c.body, 0);
      }
      assert left == [] || (|left| == 1 && IsProper(rx, left[0]));
      ProperConcat(rx, left, rest);
    }
  }

  lemma ProperConcat(rx: Patterns, left: seq<Chunk>, rest: seq<Chunk>)
    requires left == [] || (|left| == 1 && IsProper(rx, left[0]))
    requires AllProper(rx, rest)
    ensures AllProper(rx, left + rest)
  {
    if left == [] {
      assert left + rest == rest;
    } else {
      assert (left + rest)[1..] == rest;
    }
  }

  /** The output is cut into exactly the chunks the pass left. */
  lemma OutputChunks(rx: Patterns, lines: seq<Line>)
    requires WellBehaved(rx, lines) && AllClose(rx, lines)
    ensures Chunks(rx, Deduped(rx, lines)) == DedupChunks(rx, Chunks(rx, lines))
    ensures AllClose(rx, Deduped(rx, lines))
  {
    DedupedIsPass(rx, lines);
    ParseIsText(rx, lines, 0);
    assert lines[0..] == lines;
    PassIsProper(rx, Chunks(rx, lines), Chunks(rx, lines), {});
    TextCuts(rx, DedupChunks(rx, Chunks(rx, lines)));
  }

  // ----- Which definitions remain ------------------------------------------------------------------

  /** The copies of a name that do not call themselves. */
  function GoodCopies(chunks: seq<Chunk>, name: string): nat {
    if chunks == [] then 0
    else
      (if chunks[0].Def? && chunks[0].name == name && Calls(name, chunks[0].body) < 2 then 1 else 0) +
      GoodCopies(chunks[1..], name)
  }

  lemma {:induction false} CopiesConcat(a: seq<Chunk>, b: seq<Chunk>, name: string)
    ensures Copies(a + b, name) == Copies(a, name) + Copies(b, name)
    decreases |a|
  {
    if a == [] {
      assert a + b == b;
    } else {
      assert (a + b)[0] == a[0] && (a + b)[1..] == a[1..] + b;
      CopiesConcat(a[1..], b, name);
    }
  }

  lemma {:induction false} PassCopies(rx: Patterns, all: seq<Chunk>, chunks: seq<Chunk>, seen: set<string>, name: string)
    ensures Copies(Pass(rx, all, chunks, seen), name) ==
            if Copies(all, name) >= 2 then GoodCopies(chunks, name) else Copies(chunks, name)
    decreases |chunks|
  {
    if chunks != [] {
      var c, seen' := chunks[0], seen + Externs(rx, BodyOf(chunks[0]));
      var left := Left(rx, all, seen, c);
      PassCopies(rx, all, chunks[1..], seen', name);
      CopiesConcat(left, Pass(rx, all, chunks[1..], seen'), name);
      assert |left| == 1 ==> left[1..] == [];
      assert Copies(left, name) == if c.Def? && c.name == name && !Drops(all, c) then 1 else 0;
    }
  }

  /**
   * A name defined once keeps its definition; of a name defined more often exactly the copies
   * that do not call themselves remain, so it loses all of them only when each one does.
   */
  lemma DefinitionsThatRemain(rx: Patterns, lines: seq<Line>, name: string)
    requires WellBehaved(rx, lines) && AllClose(rx, lines)
    ensures var before := Chunks(rx, lines);
            Copies(Chunks(rx, Deduped(rx, lines)), name) ==
            if Copies(before, name) >= 2 then GoodCopies(before, name) else Copies(before, name)
  {
    OutputChunks(rx, lines);
    PassCopies(rx, Chunks(rx, lines), Chunks(rx, lines), {}, name);
  }
}
