/** Where a definition ends, by counting the braces of its text. */
module DedupBraces {
  import opened CallScan
  import opened DedupText
  import opened Options

  /** How often a character stands in a text. */
  function CountOf(c: char, s: string): nat {
    if s == "" then 0 else CountOf(c, s[..|s| - 1]) + if s[|s| - 1] == c then 1 else 0
  }

  /** The text holds as many opening as closing braces. */
  predicate IsEven(s: string) {
    CountOf('{', s) == CountOf('}', s)
  }

  /** The joined lines from `i` on, up to the first `k` characters of line `j`. */
  function UpTo(lines: seq<Line>, i: nat, j: nat, k: nat): string
    requires i <= j < |lines| && k <= |lines[j].text|
  {
    Join(lines[i..j] + [Line(lines[j].text[..k])])
  }

  /** At `k` in line `j` a closing brace makes the text from line `i` on even. */
  ghost predicate Closes(lines: seq<Line>, i: nat, j: nat, k: nat)
    requires i <= j < |lines|
  {
    k < |lines[j].text| && lines[j].text[k] == '}' && IsEven(UpTo(lines, i, j, k + 1))
  }

  ghost predicate ClosesIn(lines: seq<Line>, i: nat, j: nat)
    requires i <= j < |lines|
  {
    exists k :: 0 <= k < |lines[j].text| && Closes(lines, i, j, k)
  }

  /** Line `j` has the first such brace, and no line before it ends with the text even. */
  ghost predicate ClosesFirstIn(lines: seq<Line>, i: nat, j: nat)
    requires i <= j < |lines|
  {
    && ClosesIn(lines, i, j)
    && forall l | i <= l < j :: !ClosesIn(lines, i, l) && !IsEven(UpTo(lines, i, l, |lines[l].text|))
  }

  // ----- Counting ------------------------------------------------------------------------------------

  lemma {:induction false} CountConcat(c: char, a: string, b: string)
    ensures CountOf(c, a + b) == CountOf(c, a) + CountOf(c, b)
    decreases |b|
  {
    if b == "" {
      assert a + b == a;
    } else {
      assert (a + b)[..|a + b| - 1] == a + b[..|b| - 1];
      CountConcat(c, a, b[..|b| - 1]);
    }
  }

  /** How many more braces open than close. */
  function Excess(s: string): int {
    CountOf('{', s) - CountOf('}', s)
  }

  lemma ExcessConcat(a: string, b: string)
    ensures Excess(a + b) == Excess(a) + Excess(b)
  {
    CountConcat('{', a, b);
    CountConcat('}', a, b);
  }

  /** The newlines that join lines do not count. */
  lemma {:induction false} ExcessOfJoin(lines: seq<Line>, last: string)
    ensures Excess(Join(lines + [Line(last)])) == LinesExcess(lines) + Excess(last)
  {
    if lines == [] {
      assert lines + [Line(last)] == [Line(last)];
    } else {
      var first, rest := lines[0].text, lines[1..];
      ExcessOfJoin(rest, last);
      assert (lines + [Line(last)])[1..] == rest + [Line(last)];
      ExcessConcat(first, "\n");
      ExcessConcat(first + "\n", Join(rest + [Line(last)]));
      assert "\n"[..0] == "";
    }
  }

  function LinesExcess(lines: seq<Line>): int {
    if lines == [] then 0 else Excess(lines[0].text) + LinesExcess(lines[1..])
  }

  lemma {:induction false} LinesExcessSnoc(lines: seq<Line>, i: nat, j: nat)
    requires i <= j < |lines|
    ensures LinesExcess(lines[i..j + 1]) == LinesExcess(lines[i..j]) + Excess(lines[j].text)
    decreases j - i
  {
    if i < j {
      assert lines[i..j + 1][1..] == lines[i + 1..j + 1] && lines[i..j][1..] == lines[i + 1..j];
      LinesExcessSnoc(lines, i + 1, j);
    } else {
      assert lines[i..j] == [] && lines[i..j + 1][1..] == [];
    }
  }

  lemma UpToIsEven(lines: seq<Line>, i: nat, j: nat, k: nat)
    requires i <= j < |lines| && k <= |lines[j].text|
    ensures IsEven(UpTo(lines, i, j, k)) <==> LinesExcess(lines[i..j]) + Excess(lines[j].text[..k]) == 0
  {
    ExcessOfJoin(lines[i..j], lines[j].text[..k]);
  }

  // ----- The scan counts -----------------------------------------------------------------------------

  /** From depth `depth` on, the brace at `m` brings the depth back to zero. */
  ghost predicate BackAt(text: string, depth: int, m: nat) {
    m < |text| && text[m] == '}' && depth + Excess(text[..m + 1]) == 0
  }

  lemma ExcessStep(text: string, k: nat)
    requires k < |text|
    ensures Excess(text[..k + 1]) ==
            Excess(text[..k]) + if text[k] == '{' then 1 else if text[k] == '}' then -1 else 0
  {
    assert text[..k + 1][..k] == text[..k];
  }

  /** The scan stops at the first such brace; without one it ends at the depth that the counts give. */
  lemma {:induction false} ScanCounts(text: string, k: nat, start: int)
    requires k <= |text| && forall m | 0 <= m < k :: !BackAt(text, start, m)
    ensures var r := ScanText(text, k, start + Excess(text[..k]));
            && (r == Closed <==> exists m :: 0 <= m < |text| && BackAt(text, start, m))
            && (r != Closed ==> r == Open(start + Excess(text)))
    decreases |text| - k
  {
    if k == |text| {
      assert text[..k] == text;
    } else {
      ExcessStep(text, k);
      if !BackAt(text, start, k) {
        ScanCounts(text, k + 1, start);
      }
    }
  }

  lemma LineCounts(lines: seq<Line>, i: nat, j: nat)
    requires i <= j < |lines|
    ensures var r := ScanLine(lines[j], LinesExcess(lines[i..j]));
            && (r == Closed <==> ClosesIn(lines, i, j))
            && (r != Closed ==> r == Open(LinesExcess(lines[i..j + 1])))
            && (LinesExcess(lines[i..j + 1]) == 0 <==> IsEven(UpTo(lines, i, j, |lines[j].text|)))
  {
    var text, start := lines[j].text, LinesExcess(lines[i..j]);
    forall m | 0 <= m < |text|
      ensures BackAt(text, start, m) <==> Closes(lines, i, j, m)
    {
      UpToIsEven(lines, i, j, m + 1);
    }
    ScanCounts(text, 0, start);
    LinesExcessSnoc(lines, i, j);
    UpToIsEven(lines, i, j, |text|);
    assert text[..|text|] == text;
  }

  lemma {:induction false} EndFrom(lines: seq<Line>, i: nat, j: nat)
    requires i <= j <= |lines| && i < |lines|
    requires forall l | i <= l < j :: !ClosesIn(lines, i, l) && !IsEven(UpTo(lines, i, l, |lines[l].text|))
    ensures var end := EndOfDef(lines, i, j, LinesExcess(lines[i..j]));
            && (forall l | i <= l < |lines| && ClosesFirstIn(lines, i, l) :: end == l)
            && ((forall l | i <= l < |lines| :: !ClosesFirstIn(lines, i, l)) ==> end == i)
    decreases |lines| - j
  {
    if j < |lines| {
      LineCounts(lines, i, j);
      if ClosesIn(lines, i, j) {
        assert ClosesFirstIn(lines, i, j);
      } else if !IsEven(UpTo(lines, i, j, |lines[j].text|)) {
        EndFrom(lines, i, j + 1);
      }
    }
  }

  /**
   * A range ends on the line of the first closing brace at which its text is even, provided that no
   * line before it ends with the text even; when there is no such line it ends where it starts.
   */
  lemma RangesEndWhereBracesClose(rx: Patterns, lines: seq<Line>, r: Range)
    requires r in Ranges(rx, lines, 0)
    ensures forall l | r.start <= l < |lines| && ClosesFirstIn(lines, r.start, l) :: r.end == l
    ensures (forall l | r.start <= l < |lines| :: !ClosesFirstIn(lines, r.start, l)) ==> r.end == r.start
  {
    RangesStartDefs(rx, lines, 0, r);
    assert lines[r.start..r.start] == [];
    EndFrom(lines, r.start, r.start);
  }
}
