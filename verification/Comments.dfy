/** Removing block comments line by line, as the audit of extern calls does. */
module Comments {

  // ----- One line --------------------------------------------------------------------------------

  /** The first place at or after `i` where `a` is followed by `b`, or -1. */
  function IndexOf(s: string, a: char, b: char, i: nat): (j: int)
    requires i <= |s|
    ensures j == -1 || (i <= j && j + 1 < |s| && s[j] == a && s[j + 1] == b)
    ensures forall k | i <= k && k + 1 < |s| && (j == -1 || k < j) :: !(s[k] == a && s[k + 1] == b)
    decreases |s| - i
  {
    if i + 1 >= |s| then -1
    else if s[i] == a && s[i + 1] == b then i
    else IndexOf(s, a, b, i + 1)
  }

  /** The text from `i` on without comments, character by character; newlines are kept. */
  function Strip(s: string, i: nat, blocked: bool): string
    requires i <= |s|
    decreases |s| - i
  {
    if i == |s| then ""
    else if blocked then
      if i + 1 < |s| && s[i] == '*' && s[i + 1] == '/' then Strip(s, i + 2, false)
      else (if s[i] == '\n' then "\n" else "") + Strip(s, i + 1, true)
    else
      if i + 1 < |s| && s[i] == '/' && s[i + 1] == '*' then Strip(s, i + 2, true)
      else [s[i]] + Strip(s, i + 1, false)
  }

  /** Whether the text leaves a comment open. */
  predicate StaysBlocked(s: string, i: nat, blocked: bool)
    requires i <= |s|
    decreases |s| - i
  {
    if i == |s| then blocked
    else if blocked then
      if i + 1 < |s| && s[i] == '*' && s[i + 1] == '/' then StaysBlocked(s, i + 2, false)
      else StaysBlocked(s, i + 1, true)
    else
      if i + 1 < |s| && s[i] == '/' && s[i + 1] == '*' then StaysBlocked(s, i + 2, true)
      else StaysBlocked(s, i + 1, false)
  }

  /** Up to the end of a comment nothing is copied. */
  lemma {:induction false} SkipTo(s: string, i: nat, j: nat)
    requires i <= j <= |s| && '\n' !in s
    requires forall k | i <= k < j && k + 1 < |s| :: !(s[k] == '*' && s[k + 1] == '/')
    ensures Strip(s, i, true) == Strip(s, j, true)
    ensures StaysBlocked(s, i, true) == StaysBlocked(s, j, true)
    decreases j - i
  {
    if i < j {
      assert s[i] in s;
      SkipTo(s, i + 1, j);
    }
  }

  /** Up to the start of a comment everything is copied. */
  lemma {:induction false} CopyTo(s: string, i: nat, j: nat)
    requires i <= j <= |s|
    requires forall k | i <= k < j && k + 1 < |s| :: !(s[k] == '/' && s[k + 1] == '*')
    ensures Strip(s, i, false) == s[i..j] + Strip(s, j, false)
    ensures StaysBlocked(s, i, false) == StaysBlocked(s, j, false)
    decreases j - i
  {
    if i < j {
      var rest := s[i + 1..j];
      CopyTo(s, i + 1, j);
      assert s[i..j] == [s[i]] + rest;
      Associate([s[i]], rest, Strip(s, j, false));
    }
  }

  method StripBlockComments(line: string, inBlockComment: bool) returns (out: string, blocked: bool)
    requires '\n' !in line
    ensures out == Strip(line, 0, inBlockComment)
    ensures blocked == StaysBlocked(line, 0, inBlockComment)
  {
    out := "";
    var i := 0;
    blocked := inBlockComment;
    while i < |line|
      invariant 0 <= i <= |line|
      invariant out + Strip(line, i, blocked) == Strip(line, 0, inBlockComment)
      invariant StaysBlocked(line, i, blocked) == StaysBlocked(line, 0, inBlockComment)
    {
      if blocked {
        var end := IndexOf(line, '*', '/', i);
        if end < 0 {
          SkipTo(line, i, |line|);
          return out, true;
        }
        SkipTo(line, i, end);
        i := end + 2;
        blocked := false;
        continue;
      }
      var start := IndexOf(line, '/', '*', i);
      if start < 0 {
        CopyTo(line, i, |line|);
        assert line[i..|line|] == line[i..] && line[i..] + "" == line[i..];
        out := out + line[i..];
        break;
      }
      CopyTo(line, i, start);
      Associate(out, line[i..start], Strip(line, start, false));
      out := out + line[i..start];
      i := start + 2;
      blocked := true;
    }
    return out, blocked;
  }

  lemma Associate(a: string, b: string, c: string)
    ensures a + b + c == a + (b + c)
  {
  }

  // ----- A whole text ------------------------------------------------------------------------------

  function Join(lines: seq<string>): string {
    if lines == [] then "" else if |lines| == 1 then lines[0] else lines[0] + "\n" + Join(lines[1..])
  }

  /** Every line stripped, with the flag carried from one to the next. */
  function StripLines(lines: seq<string>, blocked: bool): seq<string> {
    if lines == [] then []
    else [Strip(lines[0], 0, blocked)] + StripLines(lines[1..], StaysBlocked(lines[0], 0, blocked))
  }

  function CarriedFlag(lines: seq<string>, blocked: bool): bool {
    if lines == [] then blocked else CarriedFlag(lines[1..], StaysBlocked(lines[0], 0, blocked))
  }

  predicate NoNewlines(lines: seq<string>) {
    forall i | 0 <= i < |lines| :: '\n' !in lines[i]
  }

  /** What the caller does with its lines. */
  method StripAll(lines: seq<string>) returns (stripped: seq<string>, inBlockComment: bool)
    requires NoNewlines(lines)
    ensures stripped == StripLines(lines, false)
    ensures inBlockComment == CarriedFlag(lines, false)
  {
    stripped := [];
    inBlockComment := false;
    var i := 0;
    while i < |lines|
      invariant 0 <= i <= |lines|
      invariant stripped + StripLines(lines[i..], inBlockComment) == StripLines(lines, false)
      invariant CarriedFlag(lines[i..], inBlockComment) == CarriedFlag(lines, false)
    {
      ghost var rest := lines[i..];
      assert rest[0] == lines[i] && rest[1..] == lines[i + 1..];
      var line;
      line, inBlockComment := StripBlockComments(lines[i], inBlockComment);
      ghost var tail := StripLines(lines[i + 1..], inBlockComment);
      assert stripped + ([line] + tail) == stripped + [line] + tail;
      stripped := stripped + [line];
      i := i + 1;
    }
    assert stripped + [] == stripped;
  }

  /** A line and what follows it, from its newline on, are stripped apart with the flag carried over. */
  lemma {:induction false} StripAcross(s: string, line: string, i: nat, blocked: bool)
    requires |line| < |s| && s[..|line|] == line && s[|line|] == '\n' && '\n' !in line && i <= |line|
    ensures var flag := StaysBlocked(line, i, blocked);
            && Strip(s, i, blocked) == Strip(line, i, blocked) + Strip(s, |line|, flag)
            && StaysBlocked(s, i, blocked) == StaysBlocked(s, |line|, flag)
    decreases |line| - i
  {
    if i < |line| {
      assert s[i] == line[i] && line[i] in line;
      assert s[i + 1] == if i + 1 < |line| then line[i + 1] else '\n';
      var closes := i + 1 < |line| && s[i] == '*' && s[i + 1] == '/';
      var opens := i + 1 < |line| && s[i] == '/' && s[i + 1] == '*';
      if blocked {
        StripAcross(s, line, if closes then i + 2 else i + 1, !closes);
      } else {
        StripAcross(s, line, if opens then i + 2 else i + 1, opens);
        Associate([s[i]], Strip(line, i + 1, false), Strip(s, |line|, StaysBlocked(line, i + 1, false)));
      }
    }
  }

  /** Two texts that go on alike are stripped alike. */
  lemma SameStep(s: string, k: nat, u: string, i: nat, blocked: bool)
    requires k < |s| && |s| - k == |u| - i && s[k] == u[i] && (k + 1 < |s| ==> s[k + 1] == u[i + 1])
    requires Strip(s, k + 1, blocked) == Strip(u, i + 1, blocked)
    requires StaysBlocked(s, k + 1, blocked) == StaysBlocked(u, i + 1, blocked)
    requires k + 1 < |s| ==> Strip(s, k + 2, !blocked) == Strip(u, i + 2, !blocked)
    requires k + 1 < |s| ==> StaysBlocked(s, k + 2, !blocked) == StaysBlocked(u, i + 2, !blocked)
    ensures Strip(s, k, blocked) == Strip(u, i, blocked)
    ensures StaysBlocked(s, k, blocked) == StaysBlocked(u, i, blocked)
  {
  }

  /** The automaton looks only ahead. */
  lemma {:induction false} StripShift(s: string, d: nat, i: nat, blocked: bool)
    requires d <= |s| && i <= |s| - d
    ensures Strip(s, d + i, blocked) == Strip(s[d..], i, blocked)
    ensures StaysBlocked(s, d + i, blocked) == StaysBlocked(s[d..], i, blocked)
    decreases |s| - i
  {
    var u, k := s[d..], d + i;
    if k < |s| {
      assert u[i] == s[k] && (k + 1 < |s| ==> u[i + 1] == s[k + 1]);
      StripShift(s, d, i + 1, blocked);
      if k + 1 < |s| {
        StripShift(s, d, i + 2, !blocked);
      }
      SameStep(s, k, u, i, blocked);
    }
  }

  /** Stripping line by line with the carried flag is stripping the whole text. */
  lemma {:induction false} LinewiseIsWhole(lines: seq<string>, blocked: bool)
    requires NoNewlines(lines)
    ensures Join(StripLines(lines, blocked)) == Strip(Join(lines), 0, blocked)
    ensures CarriedFlag(lines, blocked) == StaysBlocked(Join(lines), 0, blocked)
  {
    if |lines| == 1 {
      assert StripLines(lines[1..], StaysBlocked(lines[0], 0, blocked)) == [];
    } else if |lines| > 1 {
      var first, rest := lines[0], lines[1..];
      var flag := StaysBlocked(first, 0, blocked);
      var text := Join(lines);
      LinewiseIsWhole(rest, flag);
      StripAcross(text, first, 0, blocked);
      assert text[|first| + 1..] == Join(rest);
      assert Strip(text, |first|, flag) == "\n" + Strip(text, |first| + 1, flag);
      Associate(Strip(first, 0, blocked), "\n", Strip(Join(rest), 0, flag));
      StripShift(text, |first| + 1, 0, flag);
      assert StripLines(lines, blocked)[1..] == StripLines(rest, flag);
    }
  }

  function Newlines(s: string): nat {
    if s == "" then 0 else (if s[0] == '\n' then 1 else 0) + Newlines(s[1..])
  }

  lemma {:induction false} NewlinesConcat(a: string, b: string)
    ensures Newlines(a + b) == Newlines(a) + Newlines(b)
  {
    if a == "" {
      assert a + b == b;
    } else {
      assert (a + b)[0] == a[0] && (a + b)[1..] == a[1..] + b;
      NewlinesConcat(a[1..], b);
    }
  }

  /** Line numbers stay right: every newline is kept. */
  lemma {:induction false} LinesAreKept(s: string, i: nat, blocked: bool)
    requires i <= |s|
    ensures Newlines(Strip(s, i, blocked)) == Newlines(s[i..])
    decreases |s| - i
  {
    if i < |s| {
      assert s[i..][1..] == s[i + 1..];
      LinesAreKept(s, i + 1, blocked);
      if i + 1 < |s| {
        assert s[i + 1..][1..] == s[i + 2..];
        LinesAreKept(s, i + 2, !blocked);
      }
      NewlinesConcat(if s[i] == '\n' then "\n" else "", Strip(s, i + 1, true));
      NewlinesConcat([s[i]], Strip(s, i + 1, false));
    }
  }

  lemma {:induction false} StripShortens(s: string, i: nat, blocked: bool)
    requires i <= |s|
    ensures |Strip(s, i, blocked)| <= |s| - i
    decreases |s| - i
  {
    if i < |s| {
      StripShortens(s, i + 1, blocked);
      if i + 1 < |s| {
        StripShortens(s, i + 2, !blocked);
      }
    }
  }

  /** A text is left as it is exactly when no comment starts in it. */
  lemma UnchangedIff(s: string)
    ensures Strip(s, 0, false) == s <==> IndexOf(s, '/', '*', 0) == -1
  {
    var j := IndexOf(s, '/', '*', 0);
    if j == -1 {
      CopyTo(s, 0, |s|);
    } else {
      CopyTo(s, 0, j);
      StripShortens(s, j + 2, true);
    }
  }

  /** A star is copied with a slash copied just before it, and nothing but comments between the two. */
  predicate Glues(s: string, i: nat, blocked: bool, slash: bool)
    requires i <= |s|
    decreases |s| - i
  {
    if i == |s| then false
    else if blocked then
      if i + 1 < |s| && s[i] == '*' && s[i + 1] == '/' then Glues(s, i + 2, false, slash)
      else Glues(s, i + 1, true, slash && s[i] != '\n')
    else
      if i + 1 < |s| && s[i] == '/' && s[i + 1] == '*' then Glues(s, i + 2, true, slash)
      else (slash && s[i] == '*') || Glues(s, i + 1, false, s[i] == '/')
  }

  /** A comment starts in the text, or with its first character after a slash. */
  predicate Opens(t: string, slash: bool) {
    t != "" && ((slash && t[0] == '*') || Opens(t[1..], t[0] == '/'))
  }

  lemma {:induction false} GluesOpens(s: string, i: nat, blocked: bool, slash: bool)
    requires i <= |s|
    ensures Glues(s, i, blocked, slash) <==> Opens(Strip(s, i, blocked), slash)
    decreases |s| - i
  {
    if i < |s| {
      var next := s[i] == '/';
      GluesOpens(s, i + 1, blocked, if blocked then slash && s[i] != '\n' else next);
      if i + 1 < |s| {
        GluesOpens(s, i + 2, !blocked, slash);
      }
      assert ([s[i]] + Strip(s, i + 1, blocked))[1..] == Strip(s, i + 1, blocked);
      assert "" + Strip(s, i + 1, blocked) == Strip(s, i + 1, blocked);
      assert s[i] == '\n' ==> "\n" == [s[i]];
    }
  }

  lemma {:induction false} OpensIs(t: string, i: nat)
    requires i <= |t|
    ensures Opens(t[i..], false) <==> IndexOf(t, '/', '*', i) != -1
    decreases |t| - i
  {
    if i < |t| {
      assert t[i..][1..] == t[i + 1..];
      OpensIs(t, i + 1);
      if i + 1 < |t| {
        OpensAfter(t, i);
      }
    }
  }

  lemma OpensAfter(t: string, i: nat)
    requires i + 1 < |t|
    ensures Opens(t[i + 1..], t[i] == '/') <==> (t[i] == '/' && t[i + 1] == '*') || Opens(t[i + 1..], false)
  {
  }

  /** Stripping twice is stripping once exactly when no comment removal brings a slash and a star together. */
  lemma TwiceIsOnceIff(s: string, blocked: bool)
    ensures Strip(Strip(s, 0, blocked), 0, false) == Strip(s, 0, blocked) <==> !Glues(s, 0, blocked, false)
  {
    var out := Strip(s, 0, blocked);
    GluesOpens(s, 0, blocked, false);
    OpensIs(out, 0);
    assert out[0..] == out;
    UnchangedIff(out);
  }

  /** Removing a comment can bring a slash and a star together, so stripping twice may remove more. */
  lemma TwiceMayRemoveMore()
    ensures Strip("//**/*x", 0, false) == "/*x"
    ensures Strip("/*x", 0, false) == ""
  {
    var s := "//**/*x";
    assert Strip(s, 5, false) == "*x";
    assert Strip(s, 1, false) == Strip(s, 3, true) == Strip(s, 5, false);
    assert Strip("/*x", 2, true) == Strip("/*x", 3, true) == "";
  }

  // ----- What is removed -----------------------------------------------------------------------------

  /** Neither `ab` nor the start of it at the end stands in the text from `i` to `j`. */
  ghost predicate Lacks(s: string, a: char, b: char, i: nat, j: nat) {
    forall k | i <= k < j && k + 1 < |s| :: !(s[k] == a && s[k + 1] == b)
  }

  /** As many newlines as the text holds. */
  function NewlinesOf(s: string): string {
    if s == "" then "" else (if s[0] == '\n' then "\n" else "") + NewlinesOf(s[1..])
  }

  /** Up to the end of a comment only the newlines are copied. */
  lemma {:induction false} NewlinesTo(s: string, i: nat, j: nat)
    requires i <= j <= |s| && Lacks(s, '*', '/', i, j)
    ensures Strip(s, i, true) == NewlinesOf(s[i..j]) + Strip(s, j, true)
    ensures StaysBlocked(s, i, true) == StaysBlocked(s, j, true)
    decreases j - i
  {
    if i < j {
      NewlinesTo(s, i + 1, j);
      assert s[i..j][1..] == s[i + 1..j];
      Associate(if s[i] == '\n' then "\n" else "", NewlinesOf(s[i + 1..j]), Strip(s, j, true));
    }
  }

  /** Behind a comment's end the text is stripped as if it began there. */
  lemma EndsComment(s: string, b: string, c: string)
    requires s == b + "*/" + c && Lacks(s, '*', '/', 0, |b|)
    ensures Strip(s, 0, true) == NewlinesOf(b) + Strip(c, 0, false)
    ensures StaysBlocked(s, 0, true) == StaysBlocked(c, 0, false)
  {
    var e := |b| + 2;
    NewlinesTo(s, 0, |b|);
    assert s[|b|] == "*/"[0] && s[|b| + 1] == "*/"[1];
    StripShift(s, e, 0, false);
    assert s[0..|b|] == b && s[e..] == c;
  }

  /**
   * The text before a comment is copied, of the comment only its newlines are, and what follows it is
   * stripped by itself.
   */
  lemma CommentIsRemoved(s: string, a: string, b: string, c: string)
    requires s == a + "/*" + (b + "*/" + c)
    requires Lacks(s, '/', '*', 0, |a|) && Lacks(b + "*/" + c, '*', '/', 0, |b|)
    ensures Strip(s, 0, false) == a + NewlinesOf(b) + Strip(c, 0, false)
    ensures StaysBlocked(s, 0, false) == StaysBlocked(c, 0, false)
  {
    var rest := b + "*/" + c;
    OpensComment(s, a, rest);
    EndsComment(rest, b, c);
    Associate(a, NewlinesOf(b), Strip(c, 0, false));
  }

  lemma OpensComment(s: string, a: string, rest: string)
    requires s == a + "/*" + rest && Lacks(s, '/', '*', 0, |a|)
    ensures Strip(s, 0, false) == a + Strip(rest, 0, true)
    ensures StaysBlocked(s, 0, false) == StaysBlocked(rest, 0, true)
  {
    var e := |a| + 2;
    CopyTo(s, 0, |a|);
    assert s[|a|] == "/*"[0] && s[|a| + 1] == "/*"[1];
    StripShift(s, e, 0, true);
    assert s[0..|a|] == a && s[e..] == rest;
  }

  /** A comment that is never closed takes all but the newlines, and the text ends inside it. */
  lemma OpenCommentIsRemoved(s: string, a: string, b: string)
    requires s == a + "/*" + b && Lacks(s, '/', '*', 0, |a|) && Lacks(b, '*', '/', 0, |b|)
    ensures Strip(s, 0, false) == a + NewlinesOf(b) && StaysBlocked(s, 0, false)
  {
    OpensComment(s, a, b);
    NewlinesTo(b, 0, |b|);
    assert b[0..|b|] == b && NewlinesOf(b) + "" == NewlinesOf(b);
  }
}
