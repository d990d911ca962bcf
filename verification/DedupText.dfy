/**
 * The duplicate-definition pass over generated C, line by line: a brace-depth scanner that finds
 * the function definitions and an index filter that drops colliding copies and repeated externs.
 */
module DedupText {
  import opened CallScan
  import opened Options

  /**
   * What the pass asks of its two line expressions: the name a line starts to define and the name an
   * extern line declares.
   */
  datatype Patterns = Patterns(funcDef: Line -> Option<string>, externName: Line -> Option<string>)

  // ----- Finding definitions ---------------------------------------------------------------

  /** The brace scan of one line: the depth after it, or where it was when the depth came back to zero. */
  datatype Scan = Open(depth: int) | Closed

  function ScanText(text: string, k: nat, depth: int): Scan
    requires k <= |text|
    decreases |text| - k
  {
    if k == |text| then Open(depth)
    else if text[k] == '{' then ScanText(text, k + 1, depth + 1)
    else if text[k] == '}' then if depth == 1 then Closed else ScanText(text, k + 1, depth - 1)
    else ScanText(text, k + 1, depth)
  }

  function ScanLine(line: Line, depth: int): Scan {
    ScanText(line.text, 0, depth)
  }

  /** The line closing the definition that starts at `i`, or `i` itself when none does. */
  function EndOfDef(lines: seq<Line>, i: nat, j: nat, depth: int): (end: nat)
    requires i <= j <= |lines| && i < |lines|
    ensures i <= end < |lines|
    decreases |lines| - j
  {
    if j == |lines| then i
    else match ScanLine(lines[j], depth) {
      case Closed => j
      case Open(d) => if d == 0 then i else EndOfDef(lines, i, j + 1, d)
    }
  }

  datatype Range = Range(name: string, start: nat, end: nat)

  function Ranges(rx: Patterns, lines: seq<Line>, i: nat): (rs: seq<Range>)
    requires i <= |lines|
    ensures forall r | r in rs :: i <= r.start <= r.end < |lines|
    decreases |lines| - i
  {
    if i == |lines| then []
    else match rx.funcDef(lines[i]) {
      case None => Ranges(rx, lines, i + 1)
      case Some(name) =>
        var end := EndOfDef(lines, i, i, 0);
        [Range(name, i, end)] + Ranges(rx, lines, end + 1)
    }
  }

  method ScanChars(line: Line, start: int) returns (closed: bool, depth: int)
    ensures closed <==> ScanLine(line, start) == Closed
    ensures !closed ==> ScanLine(line, start) == Open(depth)
    ensures closed ==> depth == 0
  {
    depth := start;
    var k := 0;
    while k < |line.text|
      invariant 0 <= k <= |line.text|
      invariant ScanText(line.text, k, depth) == ScanLine(line, start)
    {
      if line.text[k] == '{' {
        depth := depth + 1;
      } else if line.text[k] == '}' {
        depth := depth - 1;
        if depth == 0 {
          return true, depth;
        }
      }
      k := k + 1;
    }
    return false, depth;
  }

  method FindEnd(lines: seq<Line>, i: nat) returns (end: nat)
    requires i < |lines|
    ensures end == EndOfDef(lines, i, i, 0)
  {
    var depth, j := 0, i;
    end := i;
    while j < |lines|
      invariant i <= j <= |lines| && end == i
      invariant EndOfDef(lines, i, j, depth) == EndOfDef(lines, i, i, 0)
    {
      var closed;
      closed, depth := ScanChars(lines[j], depth);
      if closed {
        end := j;
      }
      if depth == 0 {
        break;
      }
      j := j + 1;
    }
  }

  method FindFuncDefRanges(rx: Patterns, lines: seq<Line>) returns (results: seq<Range>)
    ensures results == Ranges(rx, lines, 0)
  {
    results := [];
    var i := 0;
    while i < |lines|
      invariant 0 <= i <= |lines|
      invariant results + Ranges(rx, lines, i) == Ranges(rx, lines, 0)
    {
      var m := rx.funcDef(lines[i]);
      if m == None {
        i := i + 1;
        continue;
      }
      var end := FindEnd(lines, i);
      ghost var first, rest := Range(m.value, i, end), Ranges(rx, lines, end + 1);
      assert results + ([first] + rest) == results + [first] + rest;
      results := results + [Range(m.value, i, end)];
      i := end + 1;
    }
    assert results + [] == results;
  }

  ghost predicate InOrder(rs: seq<Range>) {
    forall a, b | 0 <= a < b < |rs| :: rs[a].end < rs[b].start
  }

  lemma OrderedCons(first: Range, rest: seq<Range>)
    requires InOrder(rest) && forall a | 0 <= a < |rest| :: first.end < rest[a].start
    ensures InOrder([first] + rest)
  {
  }

  /** The ranges are disjoint and in order. */
  lemma {:induction false} RangesAreOrdered(rx: Patterns, lines: seq<Line>, i: nat)
    requires i <= |lines|
    ensures InOrder(Ranges(rx, lines, i))
    decreases |lines| - i
  {
    if i < |lines| {
      match rx.funcDef(lines[i]) {
        case None => RangesAreOrdered(rx, lines, i + 1);
        case Some(name) =>
          var end := EndOfDef(lines, i, i, 0);
          var rest := Ranges(rx, lines, end + 1);
          RangesAreOrdered(rx, lines, end + 1);
          assert forall a | 0 <= a < |rest| :: rest[a] in rest;
          OrderedCons(Range(name, i, end), rest);
      }
    }
  }

  /** They start where a definition does. */
  lemma {:induction false} RangesStartDefs(rx: Patterns, lines: seq<Line>, i: nat, r: Range)
    requires i <= |lines| && r in Ranges(rx, lines, i)
    ensures rx.funcDef(lines[r.start]) == Some(r.name)
    ensures r.end == EndOfDef(lines, r.start, r.start, 0)
    decreases |lines| - i
  {
    match rx.funcDef(lines[i]) {
      case None => RangesStartDefs(rx, lines, i + 1, r);
      case Some(name) =>
        var end := EndOfDef(lines, i, i, 0);
        if r != Range(name, i, end) {
          RangesStartDefs(rx, lines, end + 1, r);
        }
    }
  }

  /** Every line that starts a definition is inside a range. */
  lemma {:induction false} RangesCoverDefs(rx: Patterns, lines: seq<Line>, i: nat, k: nat)
    requires i <= k < |lines| && rx.funcDef(lines[k]).Some?
    ensures exists r :: r in Ranges(rx, lines, i) && r.start <= k <= r.end
    decreases |lines| - i
  {
    match rx.funcDef(lines[i]) {
      case None => RangesCoverDefs(rx, lines, i + 1, k);
      case Some(name) =>
        var end := EndOfDef(lines, i, i, 0);
        if k <= end {
          assert Range(name, i, end) in Ranges(rx, lines, i);
        } else {
          RangesCoverDefs(rx, lines, end + 1, k);
          var r :| r in Ranges(rx, lines, end + 1) && r.start <= k <= r.end;
          assert r in Ranges(rx, lines, i);
        }
    }
  }

  // ----- The filter ----------------------------------------------------------------------------

  function Named(rs: seq<Range>, name: string): seq<Range> {
    if rs == [] then []
    else (if rs[0].name == name then [rs[0]] else []) + Named(rs[1..], name)
  }

  /** The name followed by a parenthesis once more than in the signature. */
  predicate CallsItself(lines: seq<Line>, r: Range) {
    r.start <= r.end < |lines| && Calls(r.name, lines[r.start..r.end + 1]) >= 2
  }

  /** A definition is dropped when its name has another one and it calls its own name. */
  predicate IsDropped(lines: seq<Line>, rs: seq<Range>, r: Range) {
    |Named(rs, r.name)| >= 2 && CallsItself(lines, r)
  }

  /** Line `k` belongs to the dropped definition `r`. */
  predicate Hits(lines: seq<Line>, rs: seq<Range>, r: Range, k: nat) {
    r.start <= k <= r.end && IsDropped(lines, rs, r)
  }

  /** Line `k` belongs to one of the dropped definitions among `some`. */
  predicate HitsAny(lines: seq<Line>, rs: seq<Range>, some: seq<Range>, k: nat) {
    some != [] && (Hits(lines, rs, some[0], k) || HitsAny(lines, rs, some[1..], k))
  }

  lemma {:induction false} HitsAnyIs(lines: seq<Line>, rs: seq<Range>, some: seq<Range>, k: nat)
    ensures HitsAny(lines, rs, some, k) <==> exists r :: r in some && Hits(lines, rs, r, k)
  {
    if some != [] {
      HitsAnyIs(lines, rs, some[1..], k);
      assert forall r :: r in some <==> r == some[0] || r in some[1..];
    }
  }

  predicate InDropped(rx: Patterns, lines: seq<Line>, k: nat) {
    HitsAny(lines, Ranges(rx, lines, 0), Ranges(rx, lines, 0), k)
  }

  /** The extern names declared by some lines. */
  function Externs(rx: Patterns, lines: seq<Line>): set<string> {
    if lines == [] then {}
    else
      match rx.externName(lines[|lines| - 1])
      case None => Externs(rx, lines[..|lines| - 1])
      case Some(n) => Externs(rx, lines[..|lines| - 1]) + {n}
  }

  predicate IsRepeat(rx: Patterns, lines: seq<Line>, k: nat)
    requires k < |lines|
  {
    rx.externName(lines[k]).Some? && rx.externName(lines[k]).value in Externs(rx, lines[..k])
  }

  predicate IsRemoved(rx: Patterns, lines: seq<Line>, k: nat)
    requires k < |lines|
  {
    InDropped(rx, lines, k) || IsRepeat(rx, lines, k)
  }

  /** The lines from `i` to `j` that are not removed, in order. */
  function Kept(rx: Patterns, lines: seq<Line>, i: nat, j: nat): seq<Line>
    requires i <= j <= |lines|
    decreases j - i
  {
    if i == j then []
    else Kept(rx, lines, i, j - 1) + if IsRemoved(rx, lines, j - 1) then [] else [lines[j - 1]]
  }

  function Deduped(rx: Patterns, lines: seq<Line>): seq<Line> {
    Kept(rx, lines, 0, |lines|)
  }

  /** The definitions of each name, with the names in order of first appearance. */
  method GroupByName(ranges: seq<Range>) returns (byName: map<string, seq<Range>>, names: seq<string>)
    ensures forall x | x in names :: x in byName && byName[x] == Named(ranges, x)
    ensures forall r | r in ranges :: r.name in names
  {
    byName, names := map[], [];
    var i := 0;
    while i < |ranges|
      invariant 0 <= i <= |ranges|
      invariant forall x :: x in byName <==> x in names
      invariant forall x | x in byName :: byName[x] == Named(ranges[..i], x)
      invariant forall k | 0 <= k < i :: ranges[k].name in names
    {
      var r := ranges[i];
      NamedSnoc(ranges, i);
      if r.name in byName {
        byName := byName[r.name := byName[r.name] + [r]];
      } else {
        NamedNone(ranges[..i], r.name);
        names := names + [r.name];
        byName := byName[r.name := [r]];
      }
      i := i + 1;
    }
    assert ranges[..i] == ranges;
  }

  function LineSet(start: nat, n: nat): set<nat> {
    if n == 0 then {} else LineSet(start, n - 1) + {start + n - 1}
  }

  lemma {:induction false} LineSetIs(start: nat, n: nat, k: nat)
    ensures k in LineSet(start, n) <==> start <= k < start + n
  {
    if n > 0 {
      LineSetIs(start, n - 1, k);
    }
  }

  /** The lines of the self-calling ones among some definitions. */
  function CopyLines(lines: seq<Line>, defs: seq<Range>): set<nat>
    decreases |defs|
  {
    if defs == [] then {}
    else CopyLines(lines, defs[..|defs| - 1]) + SelfLines(lines, defs[|defs| - 1])
  }

  function SelfLines(lines: seq<Line>, r: Range): set<nat> {
    if CallsItself(lines, r) then LineSet(r.start, r.end + 1 - r.start) else {}
  }

  lemma {:induction false} CopyLinesIs(lines: seq<Line>, defs: seq<Range>, k: nat)
    ensures k in CopyLines(lines, defs) <==>
            exists r :: r in defs && r.start <= k <= r.end && CallsItself(lines, r)
    decreases |defs|
  {
    if defs != [] {
      var init, last := defs[..|defs| - 1], defs[|defs| - 1];
      CopyLinesIs(lines, init, k);
      assert forall r :: r in defs <==> r in init || r == last by {
        assert defs == init + [last];
      }
      if CallsItself(lines, last) {
        LineSetIs(last.start, last.end + 1 - last.start, k);
      }
    }
  }

  /** The lines of the dropped definitions of some names. */
  function NameLines(lines: seq<Line>, rs: seq<Range>, names: seq<string>): set<nat>
    decreases |names|
  {
    if names == [] then {}
    else
      var defs := Named(rs, names[|names| - 1]);
      NameLines(lines, rs, names[..|names| - 1]) + if |defs| >= 2 then CopyLines(lines, defs) else {}
  }

  ghost predicate HitUnder(lines: seq<Line>, rs: seq<Range>, name: string, k: nat) {
    exists r :: r in rs && r.name == name && Hits(lines, rs, r, k)
  }

  lemma HitUnderIs(lines: seq<Line>, rs: seq<Range>, name: string, k: nat)
    ensures var defs := Named(rs, name);
            HitUnder(lines, rs, name, k) <==> |defs| >= 2 && k in CopyLines(lines, defs)
  {
    CopyLinesIs(lines, Named(rs, name), k);
    NamedMembers(rs, name);
  }

  lemma {:induction false} NameLinesIs(lines: seq<Line>, rs: seq<Range>, names: seq<string>, k: nat)
    ensures k in NameLines(lines, rs, names) <==> exists x :: x in names && HitUnder(lines, rs, x, k)
    decreases |names|
  {
    if names != [] {
      var init, last := names[..|names| - 1], names[|names| - 1];
      NameLinesIs(lines, rs, init, k);
      HitUnderIs(lines, rs, last, k);
      assert forall x :: x in names <==> x in init || x == last by {
        assert names == init + [last];
      }
    }
  }

  method AddLines(before: set<nat>, start: nat, end: nat) returns (remove: set<nat>)
    requires start <= end
    ensures remove == before + LineSet(start, end + 1 - start)
  {
    remove := before;
    var k := start;
    while k < end + 1
      invariant start <= k <= end + 1
      invariant remove == before + LineSet(start, k - start)
    {
      remove := remove + {k};
      k := k + 1;
    }
  }

  /** Adds the lines of the copies of one name that call themselves. */
  method MarkCopies(lines: seq<Line>, name: string, defs: seq<Range>, before: set<nat>)
    returns (remove: set<nat>)
    requires forall d | 0 <= d < |defs| :: defs[d].name == name && defs[d].start <= defs[d].end < |lines|
    ensures remove == before + CopyLines(lines, defs)
  {
    remove := before;
    var d := 0;
    while d < |defs|
      invariant 0 <= d <= |defs|
      invariant remove == before + CopyLines(lines, defs[..d])
    {
      var r := defs[d];
      ghost var sofar := remove;
      if Calls(name, lines[r.start..r.end + 1]) >= 2 {
        remove := AddLines(remove, r.start, r.end);
      }
      assert remove == sofar + SelfLines(lines, r);
      assert defs[..d + 1][..d] == defs[..d];
      d := d + 1;
    }
    assert defs[..d] == defs;
  }

  method MarkDropped(rx: Patterns, lines: seq<Line>, ranges: seq<Range>) returns (remove: set<nat>)
    requires ranges == Ranges(rx, lines, 0)
    ensures forall k :: k in remove <==> InDropped(rx, lines, k)
  {
    var byName, names := GroupByName(ranges);
    remove := {};
    var n := 0;
    while n < |names|
      invariant 0 <= n <= |names|
      invariant remove == NameLines(lines, ranges, names[..n])
    {
      var defs := byName[names[n]];
      NamedMembers(ranges, names[n]);
      if |defs| >= 2 {
        assert forall d | 0 <= d < |defs| :: defs[d] in Named(ranges, names[n]);
        remove := MarkCopies(lines, names[n], defs, remove);
      }
      assert names[..n + 1][..n] == names[..n];
      n := n + 1;
    }
    assert names[..n] == names;
    forall k
      ensures k in remove <==> InDropped(rx, lines, k)
    {
      NameLinesAreDropped(rx, lines, ranges, names, k);
    }
  }

  lemma NameLinesAreDropped(rx: Patterns, lines: seq<Line>, ranges: seq<Range>, names: seq<string>, k: nat)
    requires ranges == Ranges(rx, lines, 0) && forall r | r in ranges :: r.name in names
    ensures k in NameLines(lines, ranges, names) <==> InDropped(rx, lines, k)
  {
    NameLinesIs(lines, ranges, names, k);
    HitsAnyIs(lines, ranges, ranges, k);
    if InDropped(rx, lines, k) {
      var r :| r in ranges && Hits(lines, ranges, r, k);
      assert HitUnder(lines, ranges, r.name, k);
    }
  }

  lemma NamedMembers(rs: seq<Range>, name: string)
    ensures forall r :: r in Named(rs, name) <==> r in rs && r.name == name
  {
    forall r
      ensures r in Named(rs, name) <==> r in rs && r.name == name
    {
      NamedMember(rs, name, r);
    }
  }

  lemma {:induction false} NamedConcat(a: seq<Range>, b: seq<Range>, name: string)
    ensures Named(a + b, name) == Named(a, name) + Named(b, name)
  {
    if a == [] {
      assert a + b == b;
    } else {
      var own, rest := if a[0].name == name then [a[0]] else [], a[1..];
      assert (a + b)[0] == a[0] && (a + b)[1..] == rest + b;
      NamedConcat(rest, b, name);
      assert own + (Named(rest, name) + Named(b, name)) == own + Named(rest, name) + Named(b, name);
    }
  }

  lemma NamedSnoc(rs: seq<Range>, i: nat)
    requires i < |rs|
    ensures forall x :: Named(rs[..i + 1], x) == Named(rs[..i], x) + if rs[i].name == x then [rs[i]] else []
  {
    forall x
      ensures Named(rs[..i + 1], x) == Named(rs[..i], x) + if rs[i].name == x then [rs[i]] else []
    {
      assert rs[..i + 1] == rs[..i] + [rs[i]];
      NamedConcat(rs[..i], [rs[i]], x);
      assert Named([rs[i]], x) == if rs[i].name == x then [rs[i]] else [];
    }
  }

  lemma {:induction false} NamedMember(rs: seq<Range>, name: string, r: Range)
    ensures r in Named(rs, name) <==> r in rs && r.name == name
  {
    if rs != [] {
      NamedMember(rs[1..], name, r);
      assert r in rs <==> r == rs[0] || r in rs[1..];
    }
  }

  lemma {:induction false} NamedNone(rs: seq<Range>, name: string)
    requires forall k | 0 <= k < |rs| :: rs[k].name != name
    ensures Named(rs, name) == []
  {
    if rs != [] {
      NamedNone(rs[1..], name);
    }
  }

  method DedupCollidingDefinitions(rx: Patterns, lines: seq<Line>) returns (kept: seq<Line>)
    ensures kept == Deduped(rx, lines)
  {
    var ranges := FindFuncDefRanges(rx, lines);
    var remove := MarkDropped(rx, lines, ranges);
    var seen: set<string> := {};
    var i := 0;
    while i < |lines|
      invariant 0 <= i <= |lines| && seen == Externs(rx, lines[..i])
      invariant forall k | 0 <= k < |lines| :: k in remove <==> InDropped(rx, lines, k) || (k < i && IsRepeat(rx, lines, k))
    {
      assert lines[..i + 1][..i] == lines[..i];
      var m := rx.externName(lines[i]);
      if m.Some? {
        if m.value in seen {
          remove := remove + {i};
        } else {
          seen := seen + {m.value};
        }
      }
      i := i + 1;
    }
    assert forall k | 0 <= k < |lines| :: k in remove <==> IsRemoved(rx, lines, k);
    if remove == {} {
      KeptAll(rx, lines, |lines|);
      return lines;
    }
    kept := [];
    i := 0;
    while i < |lines|
      invariant 0 <= i <= |lines| && kept == Kept(rx, lines, 0, i)
    {
      if i !in remove {
        kept := kept + [lines[i]];
      }
      i := i + 1;
    }
  }

  lemma {:induction false} KeptAll(rx: Patterns, lines: seq<Line>, j: nat)
    requires j <= |lines| && forall k | 0 <= k < j :: !IsRemoved(rx, lines, k)
    ensures Kept(rx, lines, 0, j) == lines[..j]
    ensures j == |lines| ==> lines[..j] == lines
  {
    if j > 0 {
      KeptAll(rx, lines, j - 1);
    }
  }
}
