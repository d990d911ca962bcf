/**
 * Counting calls of a name in some lines: the name at the start of a word, then whitespace, newlines
 * included, then an opening parenthesis.
 */
module CallScan {

  datatype Line = Line(text: string)

  function Join(lines: seq<Line>): string {
    if lines == [] then ""
    else if |lines| == 1 then lines[0].text
    else lines[0].text + "\n" + Join(lines[1..])
  }

  predicate IsSpace(c: char) {
    '\t' <= c <= '\r' || '\U{1C}' <= c <= ' '
  }

  predicate IsWord(c: char) {
    'a' <= c <= 'z' || 'A' <= c <= 'Z' || '0' <= c <= '9' || c == '_'
  }

  predicate IsName(name: string) {
    name != "" && forall k | 0 <= k < |name| :: IsWord(name[k])
  }

  // ----- The scan ------------------------------------------------------------------------------------

  /** From `i` on there is whitespace only, then a parenthesis opens. */
  predicate ParenAt(text: string, i: nat)
    requires i <= |text|
    decreases |text| - i
  {
    i < |text| && (text[i] == '(' || (IsSpace(text[i]) && ParenAt(text, i + 1)))
  }

  /** The name stands at `i`, at the start of a word. */
  predicate NameAt(name: string, text: string, i: nat) {
    name != "" && i + |name| <= |text| && text[i..i + |name|] == name && (i == 0 || !IsWord(text[i - 1]))
  }

  predicate CallAt(name: string, text: string, i: nat) {
    NameAt(name, text, i) && ParenAt(text, i + |name|)
  }

  /** The calls that start at `i` or after it. */
  function CallsFrom(name: string, text: string, i: nat): nat
    requires i <= |text|
    decreases |text| - i
  {
    if i == |text| then 0 else (if CallAt(name, text, i) then 1 else 0) + CallsFrom(name, text, i + 1)
  }

  function CallsIn(name: string, text: string): nat {
    CallsFrom(name, text, 0)
  }

  function Calls(name: string, lines: seq<Line>): nat {
    CallsIn(name, Join(lines))
  }

  // ----- Across a newline -----------------------------------------------------------------------------

  predicate BlankFrom(text: string, i: nat)
    requires i <= |text|
    decreases |text| - i
  {
    i == |text| || (IsSpace(text[i]) && BlankFrom(text, i + 1))
  }

  /** The length of the text without the whitespace at its end. */
  function Trimmed(text: string): (k: nat)
    ensures k <= |text|
    ensures k > 0 ==> !IsSpace(text[k - 1])
  {
    if text != "" && IsSpace(text[|text| - 1]) then Trimmed(text[..|text| - 1]) else |text|
  }

  /** The text ends with the name, but for whitespace. */
  predicate NameEnds(name: string, text: string) {
    |name| <= Trimmed(text) && NameAt(name, text, Trimmed(text) - |name|)
  }

  lemma {:induction false} BlankFromTrimmed(text: string, i: nat)
    requires i <= |text|
    ensures BlankFrom(text, i) <==> Trimmed(text) <= i
    decreases |text|
  {
    if text != "" {
      var init, last := text[..|text| - 1], text[|text| - 1];
      if i < |text| {
        BlankFromTrimmed(init, i);
        BlankSnoc(init, last, i);
        assert init + [last] == text;
      }
    }
  }

  lemma {:induction false} BlankSnoc(text: string, c: char, i: nat)
    requires i <= |text|
    ensures BlankFrom(text + [c], i) <==> BlankFrom(text, i) && IsSpace(c)
    decreases |text| - i
  {
    if i < |text| {
      BlankSnoc(text, c, i + 1);
    } else {
      assert BlankFrom(text + [c], |text| + 1);
    }
  }

  lemma {:induction false} ParenAcross(t: string, a: string, b: string, i: nat)
    requires t == a + "\n" + b && i <= |a|
    ensures ParenAt(t, i) <==> ParenAt(a, i) || (BlankFrom(a, i) && ParenAt(b, 0))
    ensures !(ParenAt(a, i) && BlankFrom(a, i))
    decreases |a| - i
  {
    if i < |a| {
      assert t[i] == a[i];
      ParenAcross(t, a, b, i + 1);
    } else {
      assert t[i] == '\n';
      ParenBehind(t, a, b, 0);
    }
  }

  lemma {:induction false} ParenBehind(t: string, a: string, b: string, j: nat)
    requires t == a + "\n" + b && j <= |b|
    ensures ParenAt(t, |a| + 1 + j) <==> ParenAt(b, j)
    decreases |b| - j
  {
    if j < |b| {
      assert t[|a| + 1 + j] == b[j];
      ParenBehind(t, a, b, j + 1);
    }
  }

  lemma NameBehind(name: string, t: string, a: string, b: string, j: nat)
    requires t == a + "\n" + b && j <= |b|
    ensures NameAt(name, t, |a| + 1 + j) <==> NameAt(name, b, j)
  {
    var i := |a| + 1 + j;
    if i + |name| <= |t| {
      assert t[i..i + |name|] == b[j..j + |name|];
      assert t[i - 1] == if j == 0 then '\n' else b[j - 1];
    }
  }

  lemma {:induction false} CallsBehind(name: string, t: string, a: string, b: string, j: nat)
    requires t == a + "\n" + b && j <= |b|
    ensures CallsFrom(name, t, |a| + 1 + j) == CallsFrom(name, b, j)
    decreases |b| - j
  {
    if j < |b| {
      NameBehind(name, t, a, b, j);
      if NameAt(name, b, j) {
        ParenBehind(t, a, b, j + |name|);
      }
      CallsBehind(name, t, a, b, j + 1);
    }
  }

  /** A name does not reach across a newline. */
  lemma NameBefore(name: string, t: string, a: string, b: string, i: nat)
    requires IsName(name) && t == a + "\n" + b && i <= |a|
    ensures NameAt(name, t, i) <==> NameAt(name, a, i)
  {
    if i + |name| <= |a| {
      assert t[i..i + |name|] == a[i..i + |name|];
      assert i > 0 ==> t[i - 1] == a[i - 1];
    } else if i + |name| <= |t| {
      assert t[i..i + |name|][|a| - i] == '\n';
    }
  }

  lemma NameThenBlank(name: string, a: string, i: nat)
    requires IsName(name) && NameAt(name, a, i)
    ensures BlankFrom(a, i + |name|) <==> i + |name| == Trimmed(a)
  {
    BlankFromTrimmed(a, i + |name|);
    assert a[i + |name| - 1] == a[i..i + |name|][|name| - 1];
    assert IsWord(name[|name| - 1]);
    if Trimmed(a) < i + |name| {
      BlankFromTrimmed(a, i + |name| - 1);
    }
  }

  /** One call at a place of the first text: within it, or reaching over the newline. */
  lemma CallAcross(name: string, t: string, a: string, b: string, i: nat)
    requires IsName(name) && t == a + "\n" + b && i <= |a|
    ensures CallAt(name, t, i) <==>
            CallAt(name, a, i) || (NameAt(name, a, i) && i + |name| == Trimmed(a) && ParenAt(b, 0))
    ensures CallAt(name, a, i) ==> i + |name| != Trimmed(a)
  {
    NameBefore(name, t, a, b, i);
    if NameAt(name, a, i) {
      ParenAcross(t, a, b, i + |name|);
      NameThenBlank(name, a, i);
    }
  }

  lemma {:induction false} CallsAcross(name: string, t: string, a: string, b: string, i: nat)
    requires IsName(name) && t == a + "\n" + b && i <= |a|
    ensures CallsFrom(name, t, i) ==
            CallsFrom(name, a, i) + CallsIn(name, b) +
            if NameEnds(name, a) && i + |name| <= Trimmed(a) && ParenAt(b, 0) then 1 else 0
    decreases |a| - i
  {
    CallAcross(name, t, a, b, i);
    if i < |a| {
      CallsAcross(name, t, a, b, i + 1);
    } else {
      CallsBehind(name, t, a, b, 0);
    }
  }

  // ----- Line by line ----------------------------------------------------------------------------------

  /** Behind blank lines only, a line that opens a parenthesis. */
  predicate ParenNext(lines: seq<Line>) {
    lines != [] && (ParenAt(lines[0].text, 0) || (BlankFrom(lines[0].text, 0) && ParenNext(lines[1..])))
  }

  /** The calls in the single lines, and those that reach from one line to a later one. */
  function LineCalls(name: string, lines: seq<Line>): nat {
    if lines == [] then 0
    else
      CallsIn(name, lines[0].text) +
      (if NameEnds(name, lines[0].text) && ParenNext(lines[1..]) then 1 else 0) +
      LineCalls(name, lines[1..])
  }

  lemma {:induction false} ParenNextIs(lines: seq<Line>)
    ensures ParenAt(Join(lines), 0) <==> ParenNext(lines)
  {
    if |lines| == 1 {
      assert !ParenNext(lines[1..]);
    } else if |lines| > 1 {
      ParenNextIs(lines[1..]);
      ParenAcross(Join(lines), lines[0].text, Join(lines[1..]), 0);
    }
  }

  /** Counting in the joined text is counting line by line. */
  lemma {:induction false} CallsAreLineCalls(name: string, lines: seq<Line>)
    requires IsName(name)
    ensures Calls(name, lines) == LineCalls(name, lines)
  {
    if |lines| == 1 {
      assert !ParenNext(lines[1..]) && LineCalls(name, lines[1..]) == 0;
    } else if |lines| > 1 {
      CallsAreLineCalls(name, lines[1..]);
      ParenNextIs(lines[1..]);
      CallsAcross(name, Join(lines), lines[0].text, Join(lines[1..]), 0);
    }
  }

  // ----- What is counted -------------------------------------------------------------------------------

  /** Letters, digits and the underscore, by their codes. */
  predicate IsWordCode(c: int) {
    48 <= c <= 57 || 65 <= c <= 90 || c == 95 || 97 <= c <= 122
  }

  /** Tab, the three breaks up to return, the four separators and the space, by their codes. */
  predicate IsSpaceCode(c: int) {
    c in {9, 10, 11, 12, 13, 28, 29, 30, 31, 32}
  }

  /** The name ends before `i`, and only whitespace stands between it and the parenthesis at `j`. */
  ghost predicate OpensAt(text: string, i: nat, j: nat) {
    i <= j < |text| && text[j] == '(' && forall k | i <= k < j :: IsSpaceCode(text[k] as int)
  }

  ghost predicate Opens(text: string, i: nat) {
    exists j: nat :: OpensAt(text, i, j)
  }

  lemma {:induction false} ParenAtIff(text: string, i: nat)
    requires i <= |text|
    ensures ParenAt(text, i) <==> Opens(text, i)
    decreases |text| - i
  {
    if i < |text| {
      var next := i + 1;
      ParenAtIff(text, next);
      if Opens(text, next) && IsSpace(text[i]) {
        var j: nat :| OpensAt(text, next, j);
        assert OpensAt(text, i, j);
      }
      if j: nat :| OpensAt(text, i, j) {
        if j > i {
          assert OpensAt(text, next, j) && IsSpaceCode(text[i] as int);
        }
      }
      if text[i] == '(' {
        assert OpensAt(text, i, i);
      }
    }
  }

  /** A call is the name, not in the middle of a word, then whitespace and a parenthesis. */
  lemma CallAtIff(name: string, text: string, i: nat)
    ensures CallAt(name, text, i) <==>
            && name != "" && i + |name| <= |text| && text[i..i + |name|] == name
            && (i == 0 || !IsWordCode(text[i - 1] as int)) && Opens(text, i + |name|)
  {
    if i + |name| <= |text| {
      ParenAtIff(text, i + |name|);
    }
  }

  lemma OneMore(s: set<nat>, rest: set<nat>, i: nat, hit: bool)
    requires i !in rest && forall k :: k in s <==> k in rest || (hit && k == i)
    ensures |s| == |rest| + if hit then 1 else 0
  {
    assert s == if hit then rest + {i} else rest;
  }

  ghost function Places(name: string, text: string, i: nat): set<nat> {
    set k: nat | i <= k < |text| && CallAt(name, text, k)
  }

  /** Each place at which there is a call counts once. */
  lemma {:induction false} CallsAreCounted(name: string, text: string, i: nat)
    requires i <= |text|
    ensures CallsFrom(name, text, i) == |Places(name, text, i)|
    decreases |text| - i
  {
    var here := Places(name, text, i);
    if i == |text| {
      assert here == {};
    } else {
      CallsAreCounted(name, text, i + 1);
      OneMore(here, Places(name, text, i + 1), i, CallAt(name, text, i));
    }
  }
}
