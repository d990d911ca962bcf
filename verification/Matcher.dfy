/** The backtracking matcher whose cursors are not rewound after a failed attempt. */
module Matcher {
  import opened Bytes
  import opened Options

  const STAR: byte := 42
  const QUESTION: byte := 63

  // ----- Patterns ----------------------------------------------------------------------------------

  /** A byte to match, once or any number of times. */
  datatype Atom = Atom(c: byte, star: bool)

  /** Where the atom at `p` ends; there is none at the end, at a star or question mark, or at a last backslash. */
  function AtomEnd(pat: seq<byte>, p: nat): (end: Option<nat>)
    requires p <= |pat|
    ensures end.Some? ==> p < end.value <= |pat|
  {
    if p >= |pat| then None
    else if pat[p] == BACKSLASH then if p + 1 >= |pat| then None else Some(p + 2)
    else if pat[p] == STAR || pat[p] == QUESTION then None
    else Some(p + 1)
  }

  function AtomByte(pat: seq<byte>, p: nat): byte
    requires p < |pat| && AtomEnd(pat, p).Some?
  {
    if pat[p] == BACKSLASH then pat[p + 1] else pat[p]
  }

  predicate StarAt(pat: seq<byte>, p: nat) {
    p < |pat| && pat[p] == STAR
  }

  /** The atoms of the pattern from `p` on, if it is well formed. */
  function Parse(pat: seq<byte>, p: nat): Option<seq<Atom>>
    requires p <= |pat|
    decreases |pat| - p
  {
    if p == |pat| then Some([])
    else
      match AtomEnd(pat, p)
      case None => None
      case Some(end) =>
        var star := StarAt(pat, end);
        match Parse(pat, if star then end + 1 else end)
        case None => None
        case Some(rest) => Some([Atom(AtomByte(pat, p), star)] + rest)
  }

  // ----- The matcher on atoms ----------------------------------------------------------------------

  /** How an attempt ends: the two cursors are left where it stopped. */
  datatype Run = Run(ok: bool, rest: seq<Atom>, at: nat)

  function Here(atoms: seq<Atom>, t: seq<byte>, i: nat): (r: Run)
    requires i <= |t|
    ensures |r.rest| <= |atoms| && i <= r.at <= |t|
    decreases |atoms|, |t| - i, 0
  {
    if atoms == [] then Run(true, [], i)
    else if atoms[0].star then Star(atoms[0].c, atoms[1..], t, i)
    else if i < |t| && t[i] == atoms[0].c then Here(atoms[1..], t, i + 1)
    else Run(false, atoms[1..], i)
  }

  /** After a failed attempt at the rest, one more byte is taken where that attempt stopped. */
  function Star(c: byte, atoms: seq<Atom>, t: seq<byte>, i: nat): (r: Run)
    requires i <= |t|
    ensures |r.rest| <= |atoms| && i <= r.at <= |t|
    decreases |atoms|, |t| - i, 1
  {
    var r := Here(atoms, t, i);
    if r.ok then r
    else if r.at < |t| && t[r.at] == c then Star(c, r.rest, t, r.at + 1)
    else Run(false, r.rest, r.at)
  }

  ghost predicate Found(atoms: seq<Atom>, t: seq<byte>) {
    exists i :: 0 <= i <= |t| && Here(atoms, t, i).ok
  }

  // ----- The matcher on bytes ----------------------------------------------------------------------

  method ConsumeAtom(pat: seq<byte>, at: nat) returns (ok: bool, p: nat)
    requires at <= |pat|
    ensures at <= p <= |pat|
    ensures if ok then AtomEnd(pat, at) == Some(p) else AtomEnd(pat, at) == None && p == at
  {
    p := at;
    if p >= |pat| {
      return false, p;
    }
    if pat[p] == BACKSLASH {
      if p + 1 >= |pat| {
        return false, p;
      }
      return true, p + 2;
    }
    if pat[p] == STAR || pat[p] == QUESTION {
      return false, p;
    }
    return true, p + 1;
  }

  method MatchAtomChar(pat: seq<byte>, atomStart: nat, atomEnd: nat, t: seq<byte>, at: nat) returns (ok: bool, s: nat)
    requires atomStart < |pat| && AtomEnd(pat, atomStart) == Some(atomEnd) && at <= |t|
    ensures ok <==> at < |t| && t[at] == AtomByte(pat, atomStart)
    ensures s == if ok then at + 1 else at
  {
    s := at;
    if s >= |t| || atomStart >= atomEnd {
      return false, s;
    }
    var ch := t[s];
    if pat[atomStart] == BACKSLASH {
      if atomStart + 1 >= atomEnd {
        return false, s;
      }
      if ch != pat[atomStart + 1] {
        return false, s;
      }
    } else if ch != pat[atomStart] {
      return false, s;
    }
    return true, s + 1;
  }

  /** An attempt on bytes ends as the one on atoms does; on a malformed pattern it fails and stays on a malformed rest. */
  ghost predicate Ends(pat: seq<byte>, t: seq<byte>, want: Option<Run>, ok: bool, p: nat, s: nat)
    requires p <= |pat|
  {
    match want
    case None => !ok && Parse(pat, p) == None
    case Some(run) => ok == run.ok && Parse(pat, p) == Some(run.rest) && s == run.at
  }

  function RunFrom(pat: seq<byte>, p: nat, t: seq<byte>, s: nat): Option<Run>
    requires p <= |pat| && s <= |t|
  {
    if Parse(pat, p) == None then None else Some(Here(Parse(pat, p).value, t, s))
  }

  method MatchHere(pat: seq<byte>, p0: nat, t: seq<byte>, s0: nat) returns (ok: bool, p: nat, s: nat)
    requires p0 <= |pat| && s0 <= |t|
    ensures p0 <= p <= |pat| && s0 <= s <= |t|
    ensures Ends(pat, t, RunFrom(pat, p0, t, s0), ok, p, s)
    decreases |pat| - p0, 0
  {
    p, s := p0, s0;
    while p < |pat|
      invariant p0 <= p <= |pat| && s0 <= s <= |t|
      invariant RunFrom(pat, p, t, s) == RunFrom(pat, p0, t, s0)
      decreases |pat| - p
    {
      var atomStart := p;
      var consumed;
      consumed, p := ConsumeAtom(pat, p);
      if !consumed {
        return false, p, s;
      }
      var atomEnd := p;
      if p < |pat| && pat[p] == STAR {
        p := p + 1;
        ok, p, s := TakeStar(pat, atomStart, atomEnd, p, t, s);
        return ok, p, s;
      }
      var matched;
      matched, s := MatchAtomChar(pat, atomStart, atomEnd, t, s);
      if !matched {
        return false, p, s;
      }
    }
    return true, p, s;
  }

  function StarFrom(c: byte, pat: seq<byte>, p: nat, t: seq<byte>, s: nat): Option<Run>
    requires p <= |pat| && s <= |t|
  {
    if Parse(pat, p) == None then None else Some(Star(c, Parse(pat, p).value, t, s))
  }

  /** The loop of a starred atom. */
  method TakeStar(pat: seq<byte>, atomStart: nat, atomEnd: nat, p0: nat, t: seq<byte>, s0: nat)
    returns (ok: bool, p: nat, s: nat)
    requires atomStart < |pat| && AtomEnd(pat, atomStart) == Some(atomEnd) && p0 <= |pat| && s0 <= |t|
    ensures p0 <= p <= |pat| && s0 <= s <= |t|
    ensures Ends(pat, t, StarFrom(AtomByte(pat, atomStart), pat, p0, t, s0), ok, p, s)
    decreases |pat| - p0, 1
  {
    p, s := p0, s0;
    ghost var c := AtomByte(pat, atomStart);
    while true
      invariant p0 <= p <= |pat| && s0 <= s <= |t|
      invariant StarFrom(c, pat, p, t, s) == StarFrom(c, pat, p0, t, s0)
      decreases |t| - s
    {
      ok, p, s := MatchHere(pat, p, t, s);
      if ok {
        return true, p, s;
      }
      var matched, s2 := MatchAtomChar(pat, atomStart, atomEnd, t, s);
      if !matched {
        break;
      }
      s := s2;
    }
    return false, p, s;
  }

  /** The pattern is well formed and accepted at some offset. */
  ghost predicate Accepts(pat: seq<byte>, t: seq<byte>) {
    Parse(pat, 0).Some? && Found(Parse(pat, 0).value, t)
  }

  /** Tries every offset; a malformed pattern is never found. */
  method SearchSlow(pat: seq<byte>, t: seq<byte>) returns (r: int)
    ensures r == 0 || r == -1
    ensures r == 0 <==> Accepts(pat, t)
  {
    var i := 0;
    while i <= |t|
      invariant 0 <= i <= |t| + 1
      invariant Parse(pat, 0).Some? ==> forall k | 0 <= k < i :: !Here(Parse(pat, 0).value, t, k).ok
    {
      var ok, p, s := MatchHere(pat, 0, t, i);
      if ok {
        return 0;
      }
      i := i + 1;
    }
    return -1;
  }

  // ----- What the pattern means ----------------------------------------------------------------------

  /** Some text starting at `i` belongs to the pattern. */
  predicate MatchesAt(atoms: seq<Atom>, t: seq<byte>, i: nat)
    requires i <= |t|
    decreases |atoms|, |t| - i
  {
    if atoms == [] then true
    else if atoms[0].star then
      MatchesAt(atoms[1..], t, i) || (i < |t| && t[i] == atoms[0].c && MatchesAt(atoms, t, i + 1))
    else i < |t| && t[i] == atoms[0].c && MatchesAt(atoms[1..], t, i + 1)
  }

  ghost predicate Occurs(atoms: seq<Atom>, t: seq<byte>) {
    exists i :: 0 <= i <= |t| && MatchesAt(atoms, t, i)
  }

  /** Every atom that is needed matches `c`. */
  predicate NeedsOnly(atoms: seq<Atom>, c: byte) {
    atoms == [] || ((atoms[0].star || atoms[0].c == c) && NeedsOnly(atoms[1..], c))
  }

  /** After a starred atom no other byte is needed than the starred one. */
  predicate IsSafe(atoms: seq<Atom>) {
    atoms == [] || ((atoms[0].star ==> NeedsOnly(atoms[1..], atoms[0].c)) && IsSafe(atoms[1..]))
  }

  // ----- Safe patterns ---------------------------------------------------------------------------------

  /** A failed attempt that needs only `c` stops where there is no `c`. */
  lemma {:induction false} StopsAtAnother(atoms: seq<Atom>, c: byte, t: seq<byte>, i: nat)
    requires i <= |t| && IsSafe(atoms) && NeedsOnly(atoms, c) && !Here(atoms, t, i).ok
    ensures Here(atoms, t, i).at < |t| ==> t[Here(atoms, t, i).at] != c
    decreases |atoms|
  {
    if atoms[0].star {
      StopsAtAnother(atoms[1..], c, t, i);
      StopsAtAnother(atoms[1..], atoms[0].c, t, i);
    } else if i < |t| && t[i] == c {
      StopsAtAnother(atoms[1..], c, t, i + 1);
    }
  }

  /** One more leading `c` does no harm. */
  lemma {:induction false} OneMore(atoms: seq<Atom>, c: byte, t: seq<byte>, i: nat)
    requires i < |t| && t[i] == c && IsSafe(atoms) && NeedsOnly(atoms, c) && MatchesAt(atoms, t, i + 1)
    ensures MatchesAt(atoms, t, i)
    decreases |atoms|, |t| - i
  {
    if atoms != [] {
      if !atoms[0].star {
        OneMore(atoms[1..], c, t, i + 1);
      } else if atoms[0].c != c {
        StarIsIdle(atoms, t, i + 1);
        OneMore(atoms[1..], c, t, i);
      }
    }
  }

  /** A starred atom of a safe pattern may as well match nothing. */
  lemma {:induction false} StarIsIdle(atoms: seq<Atom>, t: seq<byte>, i: nat)
    requires i <= |t| && atoms != [] && atoms[0].star && IsSafe(atoms) && MatchesAt(atoms, t, i)
    ensures MatchesAt(atoms[1..], t, i)
    decreases |atoms|, |t| - i
  {
    if !MatchesAt(atoms[1..], t, i) {
      StarIsIdle(atoms, t, i + 1);
      OneMore(atoms[1..], atoms[0].c, t, i);
    }
  }

  /** At every offset the matcher is right about a safe pattern. */
  lemma {:induction false} SafeIsExact(atoms: seq<Atom>, t: seq<byte>, i: nat)
    requires i <= |t| && IsSafe(atoms)
    ensures Here(atoms, t, i).ok <==> MatchesAt(atoms, t, i)
    decreases |atoms|
  {
    if atoms != [] {
      if atoms[0].star {
        SafeIsExact(atoms[1..], t, i);
        if MatchesAt(atoms, t, i) {
          StarIsIdle(atoms, t, i);
        }
        if !Here(atoms[1..], t, i).ok {
          StopsAtAnother(atoms[1..], atoms[0].c, t, i);
        }
      } else if i < |t| && t[i] == atoms[0].c {
        SafeIsExact(atoms[1..], t, i + 1);
      }
    }
  }

  // ----- Unsafe patterns -------------------------------------------------------------------------------

  function Needed(atoms: seq<Atom>): nat {
    if atoms == [] then 0 else (if atoms[0].star then 0 else 1) + Needed(atoms[1..])
  }

  /** From `i` on the text is the needed bytes and no more. */
  predicate Spells(atoms: seq<Atom>, t: seq<byte>, i: nat) {
    if atoms == [] then i == |t|
    else if atoms[0].star then Spells(atoms[1..], t, i)
    else i < |t| && t[i] == atoms[0].c && Spells(atoms[1..], t, i + 1)
  }

  /** From `i` on the text is the needed bytes with `x` in the place of atom `j`. */
  predicate Misspells(atoms: seq<Atom>, j: nat, x: byte, t: seq<byte>, i: nat)
    requires j < |atoms|
  {
    if j == 0 then i < |t| && t[i] == x && Spells(atoms[1..], t, i + 1)
    else if atoms[0].star then Misspells(atoms[1..], j - 1, x, t, i)
    else i < |t| && t[i] == atoms[0].c && Misspells(atoms[1..], j - 1, x, t, i + 1)
  }

  lemma {:induction false} SpelledIsAccepted(atoms: seq<Atom>, t: seq<byte>, i: nat)
    requires i <= |t| && Spells(atoms, t, i)
    ensures Here(atoms, t, i).ok && Needed(atoms) == |t| - i
    decreases |atoms|
  {
    if atoms != [] {
      SpelledIsAccepted(atoms[1..], t, if atoms[0].star then i else i + 1);
    }
  }

  predicate StarBefore(atoms: seq<Atom>, j: nat, x: byte)
    requires j < |atoms|
  {
    j > 0 && ((atoms[0].star && atoms[0].c == x) || StarBefore(atoms[1..], j - 1, x))
  }

  /** The attempt at the rest has met `x` where the rest of it is spelled: a star for `x` helps it on. */
  lemma StarRetries(c: byte, rest: seq<Atom>, tail: seq<Atom>, x: byte, t: seq<byte>, i: nat)
    requires i <= |t|
    requires var r := Here(rest, t, i);
             r.ok || (r.rest == tail && r.at < |t| && t[r.at] == x && Spells(tail, t, r.at + 1))
    ensures var r := Here(rest, t, i); Star(c, rest, t, i) == r || (!r.ok && c == x && Star(c, rest, t, i).ok)
    ensures c == x ==> Star(c, rest, t, i).ok
  {
    var r := Here(rest, t, i);
    if !r.ok && c == x {
      SpelledIsAccepted(tail, t, r.at + 1);
      assert Star(x, tail, t, r.at + 1).ok;
    }
  }

  /** On a misspelt text a star for the wrong byte takes it, and the attempt goes on behind the atom it missed. */
  lemma {:induction false} StarTakesWrongByte(atoms: seq<Atom>, j: nat, x: byte, t: seq<byte>, i: nat)
    requires j < |atoms| && !atoms[j].star && atoms[j].c != x && i <= |t| && Misspells(atoms, j, x, t, i)
    ensures var r := Here(atoms, t, i);
            if StarBefore(atoms, j, x) then r.ok
            else !r.ok && r.rest == atoms[j + 1..] && r.at < |t| && t[r.at] == x && Spells(r.rest, t, r.at + 1)
    decreases |atoms|
  {
    if j > 0 {
      var rest := atoms[1..];
      assert rest[j..] == atoms[j + 1..] && rest[j - 1] == atoms[j];
      if atoms[0].star {
        StarTakesWrongByte(rest, j - 1, x, t, i);
        StarRetries(atoms[0].c, rest, atoms[j + 1..], x, t, i);
        assert Here(atoms, t, i) == Star(atoms[0].c, rest, t, i);
      } else {
        StarTakesWrongByte(rest, j - 1, x, t, i + 1);
        assert Here(atoms, t, i) == Here(rest, t, i + 1);
      }
    }
  }

  /** A match takes at least the needed bytes, and exactly them only when it spells them. */
  lemma {:induction false} MatchNeeds(atoms: seq<Atom>, t: seq<byte>, i: nat)
    requires i <= |t| && MatchesAt(atoms, t, i)
    ensures Needed(atoms) <= |t| - i
    ensures Needed(atoms) == |t| - i ==> Spells(atoms, t, i)
    decreases |atoms|, |t| - i
  {
    if atoms != [] {
      if !atoms[0].star {
        MatchNeeds(atoms[1..], t, i + 1);
      } else if MatchesAt(atoms[1..], t, i) {
        MatchNeeds(atoms[1..], t, i);
      } else {
        MatchNeeds(atoms, t, i + 1);
      }
    }
  }

  lemma {:induction false} MisspeltIsNotSpelt(atoms: seq<Atom>, j: nat, x: byte, t: seq<byte>, i: nat)
    requires j < |atoms| && !atoms[j].star && atoms[j].c != x && i <= |t| && Misspells(atoms, j, x, t, i)
    ensures !Spells(atoms, t, i) && Needed(atoms) == |t| - i
    decreases |atoms|
  {
    if j == 0 {
      SpelledIsAccepted(atoms[1..], t, i + 1);
    } else {
      MisspeltIsNotSpelt(atoms[1..], j - 1, x, t, if atoms[0].star then i else i + 1);
    }
  }

  function Spelling(atoms: seq<Atom>): seq<byte> {
    if atoms == [] then [] else (if atoms[0].star then [] else [atoms[0].c]) + Spelling(atoms[1..])
  }

  function Misspelling(atoms: seq<Atom>, j: nat, x: byte): seq<byte>
    requires j < |atoms|
  {
    if j == 0 then [x] + Spelling(atoms[1..])
    else (if atoms[0].star then [] else [atoms[0].c]) + Misspelling(atoms[1..], j - 1, x)
  }

  lemma {:induction false} SpellingSpells(atoms: seq<Atom>, t: seq<byte>, i: nat)
    requires i <= |t| && t[i..] == Spelling(atoms)
    ensures Spells(atoms, t, i)
    decreases |atoms|
  {
    if atoms != [] {
      var rest := Spelling(atoms[1..]);
      if atoms[0].star {
        assert t[i..] == rest;
        SpellingSpells(atoms[1..], t, i);
      } else {
        assert t[i..][0] == atoms[0].c && t[i..][1..] == rest;
        SpellingSpells(atoms[1..], t, i + 1);
      }
    }
  }

  lemma {:induction false} MisspellingMisspells(atoms: seq<Atom>, j: nat, x: byte, t: seq<byte>, i: nat)
    requires j < |atoms| && i <= |t| && t[i..] == Misspelling(atoms, j, x)
    ensures Misspells(atoms, j, x, t, i)
    decreases |atoms|
  {
    if j == 0 {
      assert t[i..][0] == x && t[i..][1..] == Spelling(atoms[1..]);
      SpellingSpells(atoms[1..], t, i + 1);
    } else if atoms[0].star {
      assert t[i..] == Misspelling(atoms[1..], j - 1, x);
      MisspellingMisspells(atoms[1..], j - 1, x, t, i);
    } else {
      assert t[i..][0] == atoms[0].c && t[i..][1..] == Misspelling(atoms[1..], j - 1, x);
      MisspellingMisspells(atoms[1..], j - 1, x, t, i + 1);
    }
  }

  lemma {:induction false} NeedsAnother(atoms: seq<Atom>, c: byte) returns (j: nat)
    requires !NeedsOnly(atoms, c)
    ensures j < |atoms| && !atoms[j].star && atoms[j].c != c
  {
    if !atoms[0].star && atoms[0].c != c {
      j := 0;
    } else {
      j := NeedsAnother(atoms[1..], c);
      j := j + 1;
    }
  }

  /** An unsafe pattern has a starred atom before a needed one for another byte. */
  lemma {:induction false} UnsafePair(atoms: seq<Atom>) returns (j: nat, x: byte)
    requires !IsSafe(atoms)
    ensures j < |atoms| && !atoms[j].star && atoms[j].c != x && StarBefore(atoms, j, x)
  {
    if atoms[0].star && !NeedsOnly(atoms[1..], atoms[0].c) {
      j := NeedsAnother(atoms[1..], atoms[0].c);
      x := atoms[0].c;
    } else {
      j, x := UnsafePair(atoms[1..]);
    }
    j := j + 1;
  }

  /** Every unsafe pattern is found in a text where it does not occur. */
  lemma UnsafeIsWrong(atoms: seq<Atom>) returns (t: seq<byte>)
    requires !IsSafe(atoms)
    ensures Found(atoms, t) && !Occurs(atoms, t)
  {
    var j, x := UnsafePair(atoms);
    t := Misspelling(atoms, j, x);
    assert t[0..] == t;
    MisspellingMisspells(atoms, j, x, t, 0);
    StarTakesWrongByte(atoms, j, x, t, 0);
    MisspeltIsNotSpelt(atoms, j, x, t, 0);
    forall i | 0 <= i <= |t|
      ensures !MatchesAt(atoms, t, i)
    {
      if MatchesAt(atoms, t, i) {
        MatchNeeds(atoms, t, i);
      }
    }
  }

  /** The matcher is right about a pattern on every text exactly when the pattern is safe. */
  lemma RightOnEveryTextIff(atoms: seq<Atom>)
    ensures (forall t: seq<byte> :: Found(atoms, t) <==> Occurs(atoms, t)) <==> IsSafe(atoms)
  {
    if IsSafe(atoms) {
      forall t: seq<byte>
        ensures Found(atoms, t) <==> Occurs(atoms, t)
      {
        forall i | 0 <= i <= |t|
          ensures Here(atoms, t, i).ok <==> MatchesAt(atoms, t, i)
        {
          SafeIsExact(atoms, t, i);
        }
      }
    } else {
      var t := UnsafeIsWrong(atoms);
    }
  }

  // ----- Literal patterns ------------------------------------------------------------------------------

  /** Bytes matched one by one, then starred atoms only. */
  predicate StarsLast(atoms: seq<Atom>) {
    atoms == [] || (if atoms[0].star then Needed(atoms) == 0 else StarsLast(atoms[1..]))
  }

  lemma {:induction false} NothingNeeded(atoms: seq<Atom>, t: seq<byte>, i: nat)
    requires i <= |t| && Needed(atoms) == 0
    ensures Here(atoms, t, i).ok && Spelling(atoms) == []
    decreases |atoms|
  {
    if atoms != [] {
      NothingNeeded(atoms[1..], t, i);
    }
  }

  lemma {:induction false} LiteralHere(atoms: seq<Atom>, t: seq<byte>, i: nat)
    requires i <= |t| && StarsLast(atoms)
    ensures Here(atoms, t, i).ok <==> Spelling(atoms) <= t[i..]
    decreases |atoms|
  {
    if atoms != [] {
      if atoms[0].star {
        NothingNeeded(atoms, t, i);
      } else if i < |t| && t[i] == atoms[0].c {
        LiteralHere(atoms[1..], t, i + 1);
        assert t[i..] == [t[i]] + t[i + 1..];
      } else {
        assert Spelling(atoms)[0] == atoms[0].c;
      }
    }
  }

  /** With stars on the last atoms only, the search looks for the needed bytes as a contiguous piece of the text. */
  lemma LiteralSearch(atoms: seq<Atom>, t: seq<byte>)
    requires StarsLast(atoms)
    ensures Found(atoms, t) <==> exists i :: 0 <= i <= |t| && Spelling(atoms) <= t[i..]
  {
    forall i | 0 <= i <= |t|
      ensures Here(atoms, t, i).ok <==> Spelling(atoms) <= t[i..]
    {
      LiteralHere(atoms, t, i);
    }
  }

  /** It can miss an occurrence as well: `xa*bc` in `xabc`. */
  lemma MissesAnOccurrence(a: byte, b: byte, c: byte, x: byte)
    requires a != b && a != c && a != x && b != c && b != x && c != x
    ensures var pattern := [Atom(x, false), Atom(a, true), Atom(b, false), Atom(c, false)];
            Occurs(pattern, [x, a, b, c]) && !Found(pattern, [x, a, b, c])
  {
    var t := [x, a, b, c];
    var last := [Atom(c, false)];
    var tail := [Atom(b, false)] + last;
    var starred := [Atom(a, true)] + tail;
    var pattern := [Atom(x, false)] + starred;
    assert last[1..] == [] && tail[1..] == last && starred[1..] == tail && pattern[1..] == starred;
    assert MatchesAt(last, t, 3);
    assert MatchesAt(tail, t, 2);
    assert MatchesAt(starred, t, 2);
    assert MatchesAt(starred, t, 1);
    assert MatchesAt(pattern, t, 0);
    assert Here(tail, t, 1) == Run(false, last, 1);
    assert Here(last, t, 2) == Run(false, [], 2);
    assert Star(a, last, t, 2) == Run(false, [], 2);
    assert Star(a, tail, t, 1) == Star(a, last, t, 2);
    assert !Here(pattern, t, 0).ok;
    assert pattern == [Atom(x, false), Atom(a, true), Atom(b, false), Atom(c, false)];
  }
}
