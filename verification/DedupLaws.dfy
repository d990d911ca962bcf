/** What the duplicate-definition pass keeps: the text as a list of definitions and other lines. */
module DedupLaws {
  import opened CallScan
  import opened DedupText
  import opened Options

  // ----- Reading a text as chunks -------------------------------------------------------------

  datatype Chunk = Plain(line: Line) | Def(name: string, body: seq<Line>)

  function BodyOf(c: Chunk): seq<Line> {
    match c
    case Plain(line) => [line]
    case Def(_, body) => body
  }

  function Text(chunks: seq<Chunk>): seq<Line> {
    if chunks == [] then [] else BodyOf(chunks[0]) + Text(chunks[1..])
  }

  /** The chunks of the text from line `i` on, cut where the scanner cuts. */
  function Parse(rx: Patterns, lines: seq<Line>, i: nat): seq<Chunk>
    requires i <= |lines|
    decreases |lines| - i
  {
    if i == |lines| then []
    else match rx.funcDef(lines[i]) {
      case None => [Plain(lines[i])] + Parse(rx, lines, i + 1)
      case Some(name) =>
        var end := EndOfDef(lines, i, i, 0);
        [Def(name, lines[i..end + 1])] + Parse(rx, lines, end + 1)
    }
  }

  function Chunks(rx: Patterns, lines: seq<Line>): seq<Chunk> {
    Parse(rx, lines, 0)
  }

  /** Where the chunk at line `i` ends. */
  function ChunkLength(rx: Patterns, lines: seq<Line>, i: nat): (n: nat)
    requires i < |lines|
    ensures 0 < n && i + n <= |lines|
  {
    if rx.funcDef(lines[i]) == None then 1 else EndOfDef(lines, i, i, 0) + 1 - i
  }

  function ChunkAt(rx: Patterns, lines: seq<Line>, i: nat): (c: Chunk)
    requires i < |lines|
    ensures BodyOf(c) == lines[i..i + ChunkLength(rx, lines, i)]
  {
    match rx.funcDef(lines[i])
    case None => Plain(lines[i])
    case Some(name) => Def(name, lines[i..i + ChunkLength(rx, lines, i)])
  }

  lemma ParseStep(rx: Patterns, lines: seq<Line>, i: nat, c: Chunk, next: nat)
    requires i < |lines| && c == ChunkAt(rx, lines, i) && next == i + ChunkLength(rx, lines, i)
    ensures Parse(rx, lines, i) == [c] + Parse(rx, lines, next)
  {
  }

  lemma TextStep(c: Chunk, rest: seq<Chunk>)
    ensures Text([c] + rest) == BodyOf(c) + Text(rest)
  {
    assert ([c] + rest)[1..] == rest;
  }

  lemma TextJoins(lines: seq<Line>, i: nat, next: nat, c: Chunk, rest: seq<Chunk>, chunks: seq<Chunk>)
    requires i <= next <= |lines| && BodyOf(c) == lines[i..next] && Text(rest) == lines[next..]
    requires chunks == [c] + rest
    ensures Text(chunks) == lines[i..]
  {
    TextStep(c, rest);
    assert lines[i..next] + lines[next..] == lines[i..];
  }

  /** Nothing of the text is lost. */
  lemma {:induction false} ParseIsText(rx: Patterns, lines: seq<Line>, i: nat)
    requires i <= |lines|
    ensures Text(Parse(rx, lines, i)) == lines[i..]
    decreases |lines| - i
  {
    if i == |lines| {
      assert lines[i..] == [];
    } else {
      var c, next := ChunkAt(rx, lines, i), i + ChunkLength(rx, lines, i);
      ParseStep(rx, lines, i, c, next);
      ParseIsText(rx, lines, next);
      TextJoins(lines, i, next, c, Parse(rx, lines, next), Parse(rx, lines, i));
    }
  }

  /** From depth `depth`, the braces of `body` close on its last line and not before. */
  predicate ClosesAtEnd(body: seq<Line>, depth: int)
    decreases |body|
  {
    body != [] &&
    match ScanLine(body[0], depth)
    case Closed => |body| == 1
    case Open(d) => d != 0 && ClosesAtEnd(body[1..], d)
  }

  /** A chunk the scanner would cut in just this way. */
  predicate IsProper(rx: Patterns, c: Chunk) {
    match c
    case Plain(line) => rx.funcDef(line) == None
    case Def(name, body) => ClosesAtEnd(body, 0) && rx.funcDef(body[0]) == Some(name)
  }

  predicate AllProper(rx: Patterns, chunks: seq<Chunk>) {
    chunks == [] || (IsProper(rx, chunks[0]) && AllProper(rx, chunks[1..]))
  }

  /** Every definition of the text closes its braces. */
  ghost predicate AllClose(rx: Patterns, lines: seq<Line>) {
    AllProper(rx, Chunks(rx, lines))
  }

  lemma {:induction false} ClosedEnd(lines: seq<Line>, i: nat, j: nat, body: seq<Line>, depth: int)
    requires ClosesAtEnd(body, depth) && i <= j && j + |body| <= |lines| && lines[j..j + |body|] == body
    ensures EndOfDef(lines, i, j, depth) == j + |body| - 1
    decreases |body|
  {
    assert lines[j] == body[0];
    if ScanLine(body[0], depth).Open? {
      assert lines[j + 1..j + |body|] == body[1..];
      ClosedEnd(lines, i, j + 1, body[1..], ScanLine(body[0], depth).depth);
    }
  }

  /** A proper chunk of the text is cut as it is. */
  lemma ProperChunkIsCut(rx: Patterns, lines: seq<Line>, i: nat, c: Chunk)
    requires IsProper(rx, c) && i + |BodyOf(c)| <= |lines| && lines[i..i + |BodyOf(c)|] == BodyOf(c)
    ensures BodyOf(c) != [] && ChunkAt(rx, lines, i) == c && ChunkLength(rx, lines, i) == |BodyOf(c)|
  {
    assert lines[i] == BodyOf(c)[0];
    if c.Def? {
      ClosedEnd(lines, i, i, c.body, 0);
    }
  }

  lemma FirstChunk(rx: Patterns, chunks: seq<Chunk>) returns (c: Chunk, rest: seq<Chunk>)
    requires chunks != [] && AllProper(rx, chunks)
    ensures chunks == [c] + rest && IsProper(rx, c) && AllProper(rx, rest) && |rest| < |chunks|
    ensures Text(chunks) == BodyOf(c) + Text(rest)
  {
    c, rest := chunks[0], chunks[1..];
  }

  lemma SliceSplits<T>(s: seq<T>, i: nat, a: seq<T>, b: seq<T>)
    requires i <= |s| && s[i..] == a + b
    ensures i + |a| <= |s| && s[i..i + |a|] == a && s[i + |a|..] == b
  {
    assert s[i..][..|a|] == a && s[i..][|a|..] == b;
  }

  lemma CutFirst(rx: Patterns, lines: seq<Line>, i: nat, chunks: seq<Chunk>)
    returns (c: Chunk, rest: seq<Chunk>, next: nat)
    requires i <= |lines| && chunks != [] && AllProper(rx, chunks) && lines[i..] == Text(chunks)
    ensures chunks == [c] + rest && AllProper(rx, rest) && |rest| < |chunks|
    ensures next <= |lines| && lines[next..] == Text(rest)
    ensures i < next && c == ChunkAt(rx, lines, i) && next == i + ChunkLength(rx, lines, i)
  {
    c, rest := FirstChunk(rx, chunks);
    next := i + |BodyOf(c)|;
    SliceSplits(lines, i, BodyOf(c), Text(rest));
    ProperChunkIsCut(rx, lines, i, c);
  }

  /** Proper chunks are what their text is cut into, wherever it stands. */
  lemma {:induction false} TextParses(rx: Patterns, lines: seq<Line>, i: nat, chunks: seq<Chunk>)
    requires i <= |lines| && AllProper(rx, chunks) && lines[i..] == Text(chunks)
    ensures Parse(rx, lines, i) == chunks
    decreases |chunks|
  {
    if chunks != [] {
      var c, rest, next := CutFirst(rx, lines, i, chunks);
      ParseStep(rx, lines, i, c, next);
      TextParses(rx, lines, next, rest);
    }
  }

  lemma TextCuts(rx: Patterns, chunks: seq<Chunk>)
    requires AllProper(rx, chunks)
    ensures Chunks(rx, Text(chunks)) == chunks
  {
    TextParses(rx, Text(chunks), 0, chunks);
  }

  // ----- The pass on chunks ---------------------------------------------------------------------

  /** The copies of a name. */
  function Copies(chunks: seq<Chunk>, name: string): nat {
    if chunks == [] then 0
    else (if chunks[0].Def? && chunks[0].name == name then 1 else 0) + Copies(chunks[1..], name)
  }

  predicate Drops(all: seq<Chunk>, c: Chunk) {
    c.Def? && Copies(all, c.name) >= 2 && Calls(c.name, c.body) >= 2
  }

  /** The lines that do not declare an extern already seen. */
  function NewLines(rx: Patterns, seen: set<string>, lines: seq<Line>): (r: seq<Line>)
    ensures |r| <= |lines|
    decreases |lines|
  {
    if lines == [] then []
    else match rx.externName(lines[0]) {
      case None => [lines[0]] + NewLines(rx, seen, lines[1..])
      case Some(n) =>
        if n in seen then NewLines(rx, seen, lines[1..])
        else [lines[0]] + NewLines(rx, seen + {n}, lines[1..])
    }
  }

  /** What is left of a chunk: nothing of a dropped definition, else its lines without repeated externs. */
  function Left(rx: Patterns, all: seq<Chunk>, seen: set<string>, c: Chunk): seq<Chunk> {
    if Drops(all, c) then []
    else match c {
      case Plain(line) => if NewLines(rx, seen, [line]) == [] then [] else [c]
      case Def(name, body) => [Def(name, NewLines(rx, seen, body))]
    }
  }

  /** Dropped definitions still count as having shown their externs. */
  function Pass(rx: Patterns, all: seq<Chunk>, chunks: seq<Chunk>, seen: set<string>): seq<Chunk>
    decreases |chunks|
  {
    if chunks == [] then []
    else Left(rx, all, seen, chunks[0]) + Pass(rx, all, chunks[1..], seen + Externs(rx, BodyOf(chunks[0])))
  }

  function DedupChunks(rx: Patterns, chunks: seq<Chunk>): seq<Chunk> {
    Pass(rx, chunks, chunks, {})
  }

  // ----- The index filter is the pass on chunks ---------------------------------------------------

  lemma {:induction false} ExternsConcat(rx: Patterns, a: seq<Line>, b: seq<Line>)
    ensures Externs(rx, a + b) == Externs(rx, a) + Externs(rx, b)
    decreases |b|
  {
    if b == [] {
      assert a + b == a;
    } else {
      assert (a + b)[..|a + b| - 1] == a + b[..|b| - 1];
      ExternsConcat(rx, a, b[..|b| - 1]);
    }
  }

  lemma {:induction false} NewLinesConcat(rx: Patterns, seen: set<string>, a: seq<Line>, b: seq<Line>)
    ensures NewLines(rx, seen, a + b) == NewLines(rx, seen, a) + NewLines(rx, seen + Externs(rx, a), b)
    decreases |a|
  {
    if a == [] {
      assert a + b == b && seen + Externs(rx, a) == seen;
    } else {
      var l, rest := a[0], a[1..];
      var seen' := seen + Externs(rx, [l]);
      NewLinesConcat(rx, seen', rest, b);
      assert a == [l] + rest && a + b == [l] + (rest + b);
      NewLinesFirst(rx, seen, l, rest);
      NewLinesFirst(rx, seen, l, rest + b);
      ExternsConcat(rx, [l], rest);
      assert seen' + Externs(rx, rest) == seen + Externs(rx, a);
      Associate(NewLines(rx, seen, [l]), NewLines(rx, seen', rest), NewLines(rx, seen' + Externs(rx, rest), b));
    }
  }

  lemma Associate<T>(a: seq<T>, b: seq<T>, c: seq<T>)
    ensures a + b + c == a + (b + c)
  {
  }

  lemma NewLinesFirst(rx: Patterns, seen: set<string>, l: Line, rest: seq<Line>)
    ensures NewLines(rx, seen, [l] + rest) == NewLines(rx, seen, [l]) + NewLines(rx, seen + Externs(rx, [l]), rest)
  {
    var all := [l] + rest;
    assert all[0] == l && all[1..] == rest && [l][1..] == [];
    OneExtern(rx, l);
    assert rx.externName(l) == None || rx.externName(l).value in seen ==> seen + Externs(rx, [l]) == seen;
    assert [] + NewLines(rx, seen, rest) == NewLines(rx, seen, rest);
  }

  lemma OneExtern(rx: Patterns, line: Line)
    ensures Externs(rx, [line]) == match rx.externName(line) { case None => {} case Some(n) => {n} }
  {
    assert [line][..0] == [];
  }

  lemma {:induction false} KeptSplits(rx: Patterns, lines: seq<Line>, i: nat, j: nat, k: nat)
    requires i <= j <= k <= |lines|
    ensures Kept(rx, lines, i, k) == Kept(rx, lines, i, j) + Kept(rx, lines, j, k)
    decreases k - j
  {
    if j < k {
      KeptSplits(rx, lines, i, j, k - 1);
    }
  }

  lemma {:induction false} KeptUndropped(rx: Patterns, lines: seq<Line>, i: nat, j: nat)
    requires i <= j <= |lines| && forall k | i <= k < j :: !InDropped(rx, lines, k)
    ensures Kept(rx, lines, i, j) == NewLines(rx, Externs(rx, lines[..i]), lines[i..j])
    decreases j - i
  {
    if i < j {
      var seen, a, l := Externs(rx, lines[..i]), lines[i..j - 1], lines[j - 1];
      KeptUndropped(rx, lines, i, j - 1);
      assert lines[i..j] == a + [l];
      NewLinesConcat(rx, seen, a, [l]);
      assert Externs(rx, lines[..j - 1]) == seen + Externs(rx, a) by {
        assert lines[..i] + a == lines[..j - 1];
        ExternsConcat(rx, lines[..i], a);
      }
      OneNewLine(rx, seen + Externs(rx, a), l);
    }
  }

  lemma OneNewLine(rx: Patterns, seen: set<string>, l: Line)
    ensures NewLines(rx, seen, [l]) ==
            if rx.externName(l).Some? && rx.externName(l).value in seen then [] else [l]
  {
    assert [l][1..] == [];
  }

  lemma {:induction false} KeptDropped(rx: Patterns, lines: seq<Line>, i: nat, j: nat)
    requires i <= j <= |lines| && forall k | i <= k < j :: InDropped(rx, lines, k)
    ensures Kept(rx, lines, i, j) == []
    decreases j - i
  {
    if i < j {
      KeptDropped(rx, lines, i, j - 1);
    }
  }

  function RangesOf(chunks: seq<Chunk>, offset: nat): seq<Range> {
    if chunks == [] then []
    else
      var n := |BodyOf(chunks[0])|;
      (if chunks[0].Def? && n > 0 then [Range(chunks[0].name, offset, offset + n - 1)] else []) +
      RangesOf(chunks[1..], offset + n)
  }

  /** The scanner's ranges are the definitions among the chunks. */
  lemma {:induction false} RangesAreChunks(rx: Patterns, lines: seq<Line>, i: nat)
    requires i <= |lines|
    ensures Ranges(rx, lines, i) == RangesOf(Parse(rx, lines, i), i)
    decreases |lines| - i
  {
    if i < |lines| {
      var c, next := ChunkAt(rx, lines, i), i + ChunkLength(rx, lines, i);
      RangesAreChunks(rx, lines, next);
      ParseStep(rx, lines, i, c, next);
      RangesStep(rx, lines, i, next, c, Parse(rx, lines, next), Parse(rx, lines, i));
    }
  }

  lemma RangesStep(rx: Patterns, lines: seq<Line>, i: nat, next: nat, c: Chunk, rest: seq<Chunk>, all: seq<Chunk>)
    requires i < |lines| && c == ChunkAt(rx, lines, i) && next == i + ChunkLength(rx, lines, i)
    requires all == [c] + rest && Ranges(rx, lines, next) == RangesOf(rest, next)
    ensures Ranges(rx, lines, i) == RangesOf(all, i)
  {
    var own := OwnRange(c, i, next);
    RangesFirst(rx, lines, i, next, c, own);
    RangesOfCons(c, rest, all, i, next, own);
  }

  /** The range of a chunk in the lines from `i` up to `next`. */
  function OwnRange(c: Chunk, i: nat, next: nat): seq<Range>
    requires i < next
  {
    if c.Def? then [Range(c.name, i, next - 1)] else []
  }

  lemma RangesFirst(rx: Patterns, lines: seq<Line>, i: nat, next: nat, c: Chunk, own: seq<Range>)
    requires i < |lines| && c == ChunkAt(rx, lines, i) && next == i + ChunkLength(rx, lines, i)
    requires own == OwnRange(c, i, next)
    ensures |BodyOf(c)| == next - i
    ensures Ranges(rx, lines, i) == own + Ranges(rx, lines, next)
  {
    assert [] + Ranges(rx, lines, next) == Ranges(rx, lines, next);
  }

  lemma RangesOfCons(c: Chunk, rest: seq<Chunk>, all: seq<Chunk>, offset: nat, next: nat, own: seq<Range>)
    requires all == [c] + rest && offset < next == offset + |BodyOf(c)| && own == OwnRange(c, offset, next)
    ensures RangesOf(all, offset) == own + RangesOf(rest, next)
  {
    assert all[1..] == rest;
  }

  lemma {:induction false} CopiesAreNamed(chunks: seq<Chunk>, offset: nat, name: string)
    requires forall i | 0 <= i < |chunks| :: BodyOf(chunks[i]) != []
    ensures Copies(chunks, name) == |Named(RangesOf(chunks, offset), name)|
    decreases |chunks|
  {
    if chunks != [] {
      var n := |BodyOf(chunks[0])|;
      assert BodyOf(chunks[0]) != [];
      CopiesAreNamed(chunks[1..], offset + n, name);
      if chunks[0].Def? {
        var r := Range(chunks[0].name, offset, offset + n - 1);
        NamedConcat([r], RangesOf(chunks[1..], offset + n), name);
        assert Named([r], name) == if r.name == name then [r] else [];
      } else {
        assert [] + RangesOf(chunks[1..], offset + n) == RangesOf(chunks[1..], offset + n);
      }
    }
  }

  lemma {:induction false} ParsedBodies(rx: Patterns, lines: seq<Line>, i: nat)
    requires i <= |lines|
    ensures forall k | 0 <= k < |Parse(rx, lines, i)| :: BodyOf(Parse(rx, lines, i)[k]) != []
    decreases |lines| - i
  {
    if i < |lines| {
      var c, next := ChunkAt(rx, lines, i), i + ChunkLength(rx, lines, i);
      ParseStep(rx, lines, i, c, next);
      ParsedBodies(rx, lines, next);
    }
  }

  /** At a chunk boundary: the ranges before it have ended, and those after it are still to come. */
  ghost predicate AtBoundary(rx: Patterns, lines: seq<Line>, i: nat, done: seq<Range>) {
    i <= |lines| && Ranges(rx, lines, 0) == done + Ranges(rx, lines, i) && forall r | r in done :: r.end < i
  }

  /** The next chunk is dropped as a whole or not at all. */
  lemma BoundaryMoves(rx: Patterns, lines: seq<Line>, i: nat, done: seq<Range>) returns (done': seq<Range>)
    requires AtBoundary(rx, lines, i, done) && i < |lines|
    ensures AtBoundary(rx, lines, i + ChunkLength(rx, lines, i), done')
    ensures forall k | i <= k < i + ChunkLength(rx, lines, i) ::
              InDropped(rx, lines, k) <==> Drops(Chunks(rx, lines), ChunkAt(rx, lines, i))
  {
    match rx.funcDef(lines[i]) {
      case None =>
        done' := done;
        NoRangeHits(rx, lines, i, done);
      case Some(name) =>
        var next := i + ChunkLength(rx, lines, i);
        var first := Range(name, i, next - 1);
        done' := done + [first];
        assert Ranges(rx, lines, 0) == done' + Ranges(rx, lines, next);
        OwnRangeHits(rx, lines, i, next, name, done);
    }
  }

  lemma NoRangeHits(rx: Patterns, lines: seq<Line>, i: nat, done: seq<Range>)
    requires AtBoundary(rx, lines, i, done) && i < |lines| && rx.funcDef(lines[i]) == None
    ensures !InDropped(rx, lines, i)
  {
    var rs := Ranges(rx, lines, 0);
    HitsAnyIs(lines, rs, rs, i);
  }

  lemma OwnRangeHits(rx: Patterns, lines: seq<Line>, i: nat, next: nat, name: string, done: seq<Range>)
    requires AtBoundary(rx, lines, i, done) && i < |lines| && rx.funcDef(lines[i]) == Some(name)
    requires next == i + ChunkLength(rx, lines, i)
    ensures forall k | i <= k < next :: InDropped(rx, lines, k) <==> Drops(Chunks(rx, lines), ChunkAt(rx, lines, i))
  {
    var rs, first, later := Ranges(rx, lines, 0), Range(name, i, next - 1), Ranges(rx, lines, next);
    assert rs == done + [first] + later;
    DropsIs(rx, lines, i, next - i, name, lines[i..next]);
    OnlyOwnRangeHits(lines, rs, done, first, later);
  }

  lemma OnlyOwnRangeHits(lines: seq<Line>, rs: seq<Range>, done: seq<Range>, first: Range, later: seq<Range>)
    requires rs == done + [first] + later
    requires (forall r | r in done :: r.end < first.start) && (forall r | r in later :: first.end < r.start)
    ensures forall k: nat | first.start <= k <= first.end :: HitsAny(lines, rs, rs, k) <==> IsDropped(lines, rs, first)
  {
    forall k: nat | first.start <= k <= first.end
      ensures HitsAny(lines, rs, rs, k) <==> IsDropped(lines, rs, first)
    {
      HitsAnyIs(lines, rs, rs, k);
      assert first in rs;
    }
  }

  lemma {:induction false} TextConcat(a: seq<Chunk>, b: seq<Chunk>)
    ensures Text(a + b) == Text(a) + Text(b)
  {
    if a == [] {
      assert a + b == b;
    } else {
      assert (a + b)[0] == a[0] && (a + b)[1..] == a[1..] + b;
      TextConcat(a[1..], b);
    }
  }

  lemma TextOfOne(c: Chunk)
    ensures Text([c]) == BodyOf(c)
  {
    assert [c][1..] == [];
    assert BodyOf(c) + Text([]) == BodyOf(c);
  }

  lemma TextOfLeft(rx: Patterns, all: seq<Chunk>, seen: set<string>, c: Chunk)
    ensures Text(Left(rx, all, seen, c)) == Own(rx, all, seen, c)
  {
    match c {
      case Plain(line) =>
        assert [line][1..] == [];
        TextOfOne(c);
      case Def(name, body) =>
        TextOfOne(Def(name, NewLines(rx, seen, body)));
    }
  }

  function Own(rx: Patterns, all: seq<Chunk>, seen: set<string>, c: Chunk): seq<Line> {
    if Drops(all, c) then [] else NewLines(rx, seen, BodyOf(c))
  }

  /** The text the pass leaves of some chunks. */
  function PassText(rx: Patterns, all: seq<Chunk>, chunks: seq<Chunk>, seen: set<string>): seq<Line>
    decreases |chunks|
  {
    if chunks == [] then []
    else
      Own(rx, all, seen, chunks[0]) +
      PassText(rx, all, chunks[1..], seen + Externs(rx, BodyOf(chunks[0])))
  }

  lemma {:induction false} PassTextIs(rx: Patterns, all: seq<Chunk>, chunks: seq<Chunk>, seen: set<string>)
    ensures PassText(rx, all, chunks, seen) == Text(Pass(rx, all, chunks, seen))
    decreases |chunks|
  {
    if chunks != [] {
      var c, rest, seen' := chunks[0], chunks[1..], seen + Externs(rx, BodyOf(chunks[0]));
      PassTextIs(rx, all, rest, seen');
      TextConcat(Left(rx, all, seen, c), Pass(rx, all, rest, seen'));
      TextOfLeft(rx, all, seen, c);
    }
  }

  lemma PassTextStep(rx: Patterns, all: seq<Chunk>, c: Chunk, rest: seq<Chunk>, seen: set<string>)
    ensures PassText(rx, all, [c] + rest, seen) ==
            Own(rx, all, seen, c) + PassText(rx, all, rest, seen + Externs(rx, BodyOf(c)))
  {
    assert ([c] + rest)[1..] == rest;
  }

  lemma {:induction false} PassIsKept(rx: Patterns, lines: seq<Line>, i: nat, done: seq<Range>)
    requires AtBoundary(rx, lines, i, done)
    ensures Kept(rx, lines, i, |lines|) ==
            PassText(rx, Chunks(rx, lines), Parse(rx, lines, i), Externs(rx, lines[..i]))
    decreases |lines| - i
  {
    if i < |lines| {
      var c, next, done' := KeptChunk(rx, lines, i, done);
      VisitText(rx, lines, i, next, c, Chunks(rx, lines));
      PassIsKept(rx, lines, next, done');
      KeptSplits(rx, lines, i, next, |lines|);
    }
  }

  /** One chunk on: what is kept of it is what the pass leaves of it. */
  lemma KeptChunk(rx: Patterns, lines: seq<Line>, i: nat, done: seq<Range>)
    returns (c: Chunk, next: nat, done': seq<Range>)
    requires AtBoundary(rx, lines, i, done) && i < |lines|
    ensures c == ChunkAt(rx, lines, i) && next == i + ChunkLength(rx, lines, i)
    ensures AtBoundary(rx, lines, next, done')
    ensures Kept(rx, lines, i, next) == Own(rx, Chunks(rx, lines), Externs(rx, lines[..i]), c)
  {
    c, next := ChunkAt(rx, lines, i), i + ChunkLength(rx, lines, i);
    done' := BoundaryMoves(rx, lines, i, done);
    ChunkIsKept(rx, lines, i, next, c);
  }

  lemma VisitText(rx: Patterns, lines: seq<Line>, i: nat, next: nat, c: Chunk, all: seq<Chunk>)
    requires i < |lines| && c == ChunkAt(rx, lines, i) && next == i + ChunkLength(rx, lines, i)
    ensures PassText(rx, all, Parse(rx, lines, i), Externs(rx, lines[..i])) ==
            Own(rx, all, Externs(rx, lines[..i]), c) +
            PassText(rx, all, Parse(rx, lines, next), Externs(rx, lines[..next]))
  {
    ParseStep(rx, lines, i, c, next);
    PassTextStep(rx, all, c, Parse(rx, lines, next), Externs(rx, lines[..i]));
    SeenMoves(rx, lines, i, next, c);
  }

  lemma SeenMoves(rx: Patterns, lines: seq<Line>, i: nat, next: nat, c: Chunk)
    requires i < |lines| && c == ChunkAt(rx, lines, i) && next == i + ChunkLength(rx, lines, i)
    ensures Externs(rx, lines[..next]) == Externs(rx, lines[..i]) + Externs(rx, BodyOf(c))
  {
    assert lines[..i] + lines[i..next] == lines[..next];
    ExternsConcat(rx, lines[..i], lines[i..next]);
  }

  lemma ChunkIsKept(rx: Patterns, lines: seq<Line>, i: nat, next: nat, c: Chunk)
    requires i <= next <= |lines| && BodyOf(c) == lines[i..next]
    requires forall k | i <= k < next :: InDropped(rx, lines, k) <==> Drops(Chunks(rx, lines), c)
    ensures Kept(rx, lines, i, next) == Own(rx, Chunks(rx, lines), Externs(rx, lines[..i]), c)
  {
    if Drops(Chunks(rx, lines), c) {
      KeptDropped(rx, lines, i, next);
    } else {
      KeptUndropped(rx, lines, i, next);
    }
  }

  lemma DropsIs(rx: Patterns, lines: seq<Line>, i: nat, n: nat, name: string, body: seq<Line>)
    requires 0 < n && i + n <= |lines| && body == lines[i..i + n]
    ensures Drops(Chunks(rx, lines), Def(name, body)) <==>
            IsDropped(lines, Ranges(rx, lines, 0), Range(name, i, i + n - 1))
  {
    CopiesAreRanges(rx, lines, name);
    assert lines[i..(i + n - 1) + 1] == body;
  }

  lemma CopiesAreRanges(rx: Patterns, lines: seq<Line>, name: string)
    ensures Copies(Chunks(rx, lines), name) == |Named(Ranges(rx, lines, 0), name)|
  {
    RangesAreChunks(rx, lines, 0);
    ParsedBodies(rx, lines, 0);
    CopiesAreNamed(Chunks(rx, lines), 0, name);
  }

  /** On every text the index filter computes the pass on its chunks. */
  lemma DedupedIsPass(rx: Patterns, lines: seq<Line>)
    ensures Deduped(rx, lines) == Text(DedupChunks(rx, Chunks(rx, lines)))
  {
    assert Ranges(rx, lines, 0) == [] + Ranges(rx, lines, 0);
    assert lines[..0] == [];
    PassIsKept(rx, lines, 0, []);
    PassTextIs(rx, Chunks(rx, lines), Chunks(rx, lines), {});
  }
}
