/** How the matcher's patterns are written, and searching for a text that is written as a pattern. */
module PatternText {
  import opened Bytes
  import opened Matcher
  import opened Options

  // ----- Which patterns denote which atoms -----------------------------------------------------------

  /** A byte is written as it is, unless it is a backslash, a star or a question mark, or behind a backslash. */
  predicate WritesByte(c: byte, s: seq<byte>) {
    || (s == [c] && c != '\\' as int && c != '*' as int && c != '?' as int)
    || s == ['\\' as int, c]
  }

  /** A starred atom has a star behind its byte. */
  predicate WritesAtom(a: Atom, s: seq<byte>) {
    if a.star then s != [] && s[|s| - 1] == '*' as int && WritesByte(a.c, s[..|s| - 1]) else WritesByte(a.c, s)
  }

  /** The pattern is the atoms written one after the other. */
  ghost predicate Writes(atoms: seq<Atom>, pat: seq<byte>)
    decreases |atoms|
  {
    if atoms == [] then pat == []
    else exists k :: 0 < k <= |pat| && WritesAtom(atoms[0], pat[..k]) && Writes(atoms[1..], pat[k..])
  }

  lemma NoAtomStartsWithStar(atoms: seq<Atom>, pat: seq<byte>)
    requires Writes(atoms, pat) && pat != []
    ensures pat[0] != '*' as int
  {
    var k :| 0 < k <= |pat| && WritesAtom(atoms[0], pat[..k]);
    assert pat[..k][0] == pat[0];
    if atoms[0].star && |pat[..k]| > 1 {
      assert pat[..k][..k - 1][0] == pat[0];
    }
  }

  /** The length of the first atom with its star. */
  function FirstLength(pat: seq<byte>, p: nat): nat
    requires p <= |pat| && AtomEnd(pat, p).Some?
  {
    AtomEnd(pat, p).value - p + if StarAt(pat, AtomEnd(pat, p).value) then 1 else 0
  }

  lemma ParsedFirst(pat: seq<byte>, p: nat)
    requires p <= |pat| && AtomEnd(pat, p).Some?
    ensures var n := FirstLength(pat, p);
            && 0 < n <= |pat| - p
            && WritesAtom(Atom(AtomByte(pat, p), StarAt(pat, AtomEnd(pat, p).value)), pat[p..p + n])
  {
    var end, n := AtomEnd(pat, p).value, FirstLength(pat, p);
    assert pat[p..end] == if pat[p] == BACKSLASH then [pat[p], pat[p + 1]] else [pat[p]];
    assert StarAt(pat, end) ==> pat[p..p + n][..n - 1] == pat[p..end] && pat[p..p + n][n - 1] == pat[end];
  }

  lemma WrittenByte(pat: seq<byte>, p: nat, c: byte, n: nat)
    requires p + n <= |pat| && WritesByte(c, pat[p..p + n])
    ensures 0 < n <= 2 && AtomEnd(pat, p) == Some(p + n) && AtomByte(pat, p) == c
  {
    var s := pat[p..p + n];
    assert forall i | 0 <= i < n :: s[i] == pat[p + i];
    assert s[0] == pat[p];
  }

  /** Where an atom is written and no stray star follows, the parser finds just that atom. */
  lemma WrittenFirst(pat: seq<byte>, p: nat, a: Atom, k: nat)
    requires p < p + k <= |pat| && WritesAtom(a, pat[p..p + k])
    requires p + k < |pat| ==> pat[p + k] != '*' as int
    ensures AtomEnd(pat, p).Some? && AtomByte(pat, p) == a.c
    ensures StarAt(pat, AtomEnd(pat, p).value) == a.star && FirstLength(pat, p) == k
  {
    var s := pat[p..p + k];
    if a.star {
      assert s[..k - 1] == pat[p..p + (k - 1)] && s[k - 1] == pat[p + k - 1];
      WrittenByte(pat, p, a.c, k - 1);
    } else {
      WrittenByte(pat, p, a.c, k);
    }
  }

  lemma FirstPiece(atoms: seq<Atom>, pat: seq<byte>, p: nat) returns (k: nat)
    requires p <= |pat| && Writes(atoms, pat[p..]) && atoms != []
    ensures p < p + k <= |pat| && WritesAtom(atoms[0], pat[p..p + k]) && Writes(atoms[1..], pat[p + k..])
    ensures p + k < |pat| ==> pat[p + k] != '*' as int
  {
    var u := pat[p..];
    k :| 0 < k <= |u| && WritesAtom(atoms[0], u[..k]) && Writes(atoms[1..], u[k..]);
    assert u[..k] == pat[p..p + k] && u[k..] == pat[p + k..];
    if p + k < |pat| {
      NoAtomStartsWithStar(atoms[1..], u[k..]);
      assert u[k..][0] == pat[p + k];
    }
  }

  lemma PieceFirst(atoms: seq<Atom>, pat: seq<byte>, p: nat, k: nat)
    requires p < p + k <= |pat| && atoms != []
    requires WritesAtom(atoms[0], pat[p..p + k]) && Writes(atoms[1..], pat[p + k..])
    ensures Writes(atoms, pat[p..])
  {
    var u := pat[p..];
    assert u[..k] == pat[p..p + k] && u[k..] == pat[p + k..];
  }

  lemma ParsedRest(pat: seq<byte>, p: nat, atoms: seq<Atom>)
    requires p < |pat| && Parse(pat, p) == Some(atoms)
    ensures atoms != [] && AtomEnd(pat, p).Some?
    ensures atoms[0] == Atom(AtomByte(pat, p), StarAt(pat, AtomEnd(pat, p).value))
    ensures p + FirstLength(pat, p) <= |pat| && Parse(pat, p + FirstLength(pat, p)) == Some(atoms[1..])
  {
  }

  lemma ParsedPiece(pat: seq<byte>, p: nat, atoms: seq<Atom>) returns (k: nat)
    requires p < |pat| && Parse(pat, p) == Some(atoms)
    ensures p < p + k <= |pat| && atoms != []
    ensures WritesAtom(atoms[0], pat[p..p + k]) && Parse(pat, p + k) == Some(atoms[1..])
  {
    ParsedRest(pat, p, atoms);
    ParsedFirst(pat, p);
    k := FirstLength(pat, p);
  }

  lemma NothingLeft(pat: seq<byte>, atoms: seq<Atom>)
    requires Parse(pat, |pat|) == Some(atoms)
    ensures Writes(atoms, pat[|pat|..])
  {
    assert pat[|pat|..] == [];
  }

  lemma {:induction false} ParsedIsWritten(pat: seq<byte>, p: nat, atoms: seq<Atom>)
    requires p <= |pat| && Parse(pat, p) == Some(atoms)
    ensures Writes(atoms, pat[p..])
    decreases |pat| - p
  {
    if p == |pat| {
      NothingLeft(pat, atoms);
    } else {
      var k := ParsedPiece(pat, p, atoms);
      ParsedIsWritten(pat, p + k, atoms[1..]);
      PieceFirst(atoms, pat, p, k);
    }
  }

  lemma {:induction false} WrittenIsParsed(pat: seq<byte>, p: nat, atoms: seq<Atom>)
    requires p <= |pat| && Writes(atoms, pat[p..])
    ensures Parse(pat, p) == Some(atoms)
    decreases |pat| - p
  {
    if atoms != [] {
      var rest := atoms[1..];
      var k := FirstPiece(atoms, pat, p);
      WrittenIsParsed(pat, p + k, rest);
      FirstIsParsed(pat, p, atoms[0], k, rest);
      assert atoms == [atoms[0]] + rest;
    }
  }

  lemma FirstIsParsed(pat: seq<byte>, p: nat, a: Atom, k: nat, rest: seq<Atom>)
    requires p < p + k <= |pat| && WritesAtom(a, pat[p..p + k])
    requires (p + k < |pat| ==> pat[p + k] != '*' as int) && Parse(pat, p + k) == Some(rest)
    ensures Parse(pat, p) == Some([a] + rest)
  {
    WrittenFirst(pat, p, a, k);
    ParseFirst(pat, p, k, rest);
  }

  lemma ParseFirst(pat: seq<byte>, p: nat, k: nat, rest: seq<Atom>)
    requires p < |pat| && AtomEnd(pat, p).Some? && FirstLength(pat, p) == k && p + k <= |pat|
    requires Parse(pat, p + k) == Some(rest)
    ensures Parse(pat, p) == Some([Atom(AtomByte(pat, p), StarAt(pat, AtomEnd(pat, p).value))] + rest)
  {
  }

  /** A pattern is parsed to some atoms exactly when it is those atoms written one after the other. */
  lemma ParsedIffWritten(pat: seq<byte>, atoms: seq<Atom>)
    ensures Parse(pat, 0) == Some(atoms) <==> Writes(atoms, pat)
  {
    assert pat[0..] == pat;
    if Parse(pat, 0) == Some(atoms) {
      ParsedIsWritten(pat, 0, atoms);
    }
    if Writes(atoms, pat) {
      WrittenIsParsed(pat, 0, atoms);
    }
  }

  // ----- One way to write them -----------------------------------------------------------------------

  /** A backslash before a backslash, a star or a question mark only. */
  function Quote(c: byte): seq<byte> {
    if c == '\\' as int || c == '*' as int || c == '?' as int then ['\\' as int, c] else [c]
  }

  function Render(atoms: seq<Atom>): seq<byte> {
    if atoms == [] then []
    else Quote(atoms[0].c) + (if atoms[0].star then ['*' as int] else []) + Render(atoms[1..])
  }

  lemma {:induction false} RenderWrites(atoms: seq<Atom>)
    ensures Writes(atoms, Render(atoms))
    decreases |atoms|
  {
    if atoms != [] {
      var q := Quote(atoms[0].c);
      var first := q + if atoms[0].star then ['*' as int] else [];
      var s := Render(atoms);
      RenderWrites(atoms[1..]);
      assert atoms[0].star ==> first[..|first| - 1] == q;
      assert s[..|first|] == first && s[|first|..] == Render(atoms[1..]);
    }
  }

  /** Whatever the atoms, the pattern written for them is parsed back to them. */
  lemma RenderedIsParsed(atoms: seq<Atom>)
    ensures Parse(Render(atoms), 0) == Some(atoms)
  {
    RenderWrites(atoms);
    ParsedIffWritten(Render(atoms), atoms);
  }

  // ----- Searching for a text ------------------------------------------------------------------------

  function Literals(w: seq<byte>): seq<Atom> {
    if w == [] then [] else [Atom(w[0], false)] + Literals(w[1..])
  }

  /** The text with a backslash before its backslashes, stars and question marks. */
  function Quoted(w: seq<byte>): seq<byte> {
    if w == [] then [] else Quote(w[0]) + Quoted(w[1..])
  }

  lemma {:induction false} QuotedIsRendered(w: seq<byte>)
    ensures Quoted(w) == Render(Literals(w))
    ensures Spelling(Literals(w)) == w && StarsLast(Literals(w))
  {
    if w != [] {
      QuotedIsRendered(w[1..]);
      assert Literals(w)[1..] == Literals(w[1..]);
      assert Quote(w[0]) + [] == Quote(w[0]);
      assert w == [w[0]] + w[1..];
    }
  }

  predicate IsPieceAt(w: seq<byte>, t: seq<byte>, i: nat) {
    i + |w| <= |t| && t[i..i + |w|] == w
  }

  /** Any bytes at all, written so, are found in exactly the texts of which they are a piece. */
  lemma QuotedIsFoundIff(w: seq<byte>, t: seq<byte>)
    ensures Accepts(Quoted(w), t) <==> exists i: nat :: IsPieceAt(w, t, i)
  {
    QuotedIsRendered(w);
    RenderedIsParsed(Literals(w));
    LiteralSearch(Literals(w), t);
    if i :| 0 <= i <= |t| && w <= t[i..] {
      assert t[i..i + |w|] == t[i..][..|w|];
      assert IsPieceAt(w, t, i);
    }
    if i: nat :| IsPieceAt(w, t, i) {
      assert t[i..][..|w|] == t[i..i + |w|];
      assert Spelling(Literals(w)) <= t[i..];
    }
  }
}
