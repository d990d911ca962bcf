/** The plain-text HTTP response around a polling body, and how a client gets the body back. */
module HttpWrap {
  import opened Append
  import opened Bytes
  import opened Decimal
  import opened Options

  const CR: byte := 13
  const LF: byte := 10

  /** The low bytes of the character codes of a text. */
  function Ascii(s: string): (r: seq<byte>) {
    if s == "" then [] else [s[0] as int % 0x100] + Ascii(s[1..])
  }

  const PREFIX: seq<byte> := Ascii(
    "HTTP/1.1 200 OK" + ("\r\n" + ("Content-Type: text/plain; charset=UTF-8" + ("\r\n" +
    ("Connection: keep-alive" + ("\r\n" + "Content-Length: "))))))

  const SUFFIX: seq<byte> := [CR, LF, CR, LF]

  function Head(prefix: seq<byte>, length: nat): seq<byte> {
    prefix + Numeral(length) + SUFFIX
  }

  function Response(body: seq<byte>): seq<byte> {
    Head(PREFIX, |body|) + body
  }

  method AppendHead(out: array<byte>, outCap: int, prefix: seq<byte>, blen: u32) returns (status: int, off: int)
    requires outCap <= out.Length
    modifies out
    ensures status == 0 <==> |Head(prefix, blen)| <= outCap
    ensures status == 0 ==> off == |Head(prefix, blen)| && WrittenAt(out[..], old(out[..]), 0, Head(prefix, blen))
  {
    ghost var s0 := out[..];
    assert Argument(Some(prefix), |prefix|) == prefix;
    assert Argument(Some(SUFFIX), |SUFFIX|) == SUFFIX;
    status, off := AppendBytes(out, outCap, 0, Some(prefix), |prefix|);
    if status != 0 {
      return;
    }
    ghost var s1 := out[..];
    status, off := AppendU32Dec(out, outCap, off, blen);
    if status != 0 {
      return;
    }
    ghost var s2 := out[..];
    WrittenThen(s2, s1, s0, 0, prefix, Numeral(blen));
    status, off := AppendBytes(out, outCap, off, Some(SUFFIX), |SUFFIX|);
    if status == 0 {
      WrittenThen(out[..], s2, s0, 0, prefix + Numeral(blen), SUFFIX);
    }
  }

  method WrapAfter(prefix: seq<byte>, body: seq<byte>, blen: i32, out: array<byte>, outCap: int) returns (n: int)
    requires outCap <= out.Length && 0 < blen <= |body|
    modifies out
    ensures var text := Head(prefix, blen) + body[..blen];
            && (n == -1 <==> |text| > outCap)
            && (n != -1 ==> n == |text| && WrittenAt(out[..], old(out[..]), 0, text))
  {
    ghost var s0 := out[..];
    var status, off := AppendHead(out, outCap, prefix, blen);
    if status != 0 {
      return -1;
    }
    ghost var s1 := out[..];
    if off + blen > outCap {
      return -1;
    }
    Memcpy(out, off, body, blen);
    WrittenThen(out[..], s1, s0, 0, Head(prefix, blen), body[..blen]);
    return off + blen;
  }

  method WrapHttpBody(body: Input, blen: i32, out: array?<byte>, outCap: int) returns (n: int)
    requires out != null ==> outCap <= out.Length
    requires body.Some? ==> blen <= |body.value|
    modifies out
    ensures n == -1 <==>
            || out == null || body == None || blen <= 0 || outCap < blen + 64
            || |Response(Argument(body, blen))| > outCap
    ensures n != -1 ==>
              && n == |Response(Argument(body, blen))|
              && WrittenAt(out[..], old(out[..]), 0, Response(Argument(body, blen)))
  {
    if body == None || blen <= 0 || out == null || outCap < blen + 64 {
      return -1;
    }
    n := WrapAfter(PREFIX, body.value, blen, out, outCap);
  }

  /**
   * What a client does with a byte stream: match the fixed header, read the Content-Length digits
   * up to the line end (section 8.6 of RFC 9110), then take that many bytes after the blank line.
   */
  function Receive(prefix: seq<byte>, stream: seq<byte>): Option<(seq<byte>, seq<byte>)> {
    if !(prefix <= stream) then None
    else
      var close := FirstIndex(stream, CR, |prefix|);
      var length := Value(stream[|prefix|..close]);
      if close + 4 > |stream| || stream[close..close + 4] != SUFFIX then None
      else Split(stream[close + 4..], length)
  }

  function Split(s: seq<byte>, n: int): Option<(seq<byte>, seq<byte>)> {
    if 0 <= n <= |s| then Some((s[..n], s[n..])) else None
  }

  lemma ReceiveParts(prefix: seq<byte>, digits: seq<byte>, tail: seq<byte>)
    requires CR !in digits
    ensures Receive(prefix, prefix + digits + SUFFIX + tail) == Split(tail, Value(digits))
  {
    var stream := prefix + digits + SUFFIX + tail;
    var close := |prefix| + |digits|;
    assert stream[|prefix|..close] == digits;
    assert stream[close] == SUFFIX[0];
    FirstIndexIs(stream, CR, |prefix|, close);
    assert stream[close..close + 4] == SUFFIX;
    assert stream[close + 4..] == tail;
  }

  lemma NumeralHasNoLineEnd(n: nat)
    ensures CR !in Numeral(n)
  {
    NumeralReadsBack(n);
    assert !IsDigit(CR);
  }

  /** Responses are self-delimiting: a client recovers the body and the bytes that follow it. */
  lemma BodyRecovered(body: seq<byte>, rest: seq<byte>)
    ensures Receive(PREFIX, Response(body) + rest) == Some((body, rest))
  {
    NumeralReadsBack(|body|);
    NumeralHasNoLineEnd(|body|);
    ReceiveParts(PREFIX, Numeral(|body|), body + rest);
    Associate(Head(PREFIX, |body|), body, rest);
    assert (body + rest)[..|body|] == body && (body + rest)[|body|..] == rest;
  }

  // ----- The lines of the head -----------------------------------------------------------------------

  /** The bytes before the first line end, and those behind it. */
  function FirstLine(s: seq<byte>): Option<(seq<byte>, seq<byte>)> {
    var end := FirstIndex(s, '\r' as int, 0);
    if end + 1 < |s| && s[end + 1] == '\n' as int then Some((s[..end], s[end + 2..])) else None
  }

  /** The lines up to an empty one, and what follows it (section 2.1 of RFC 9112). */
  function HeadLines(s: seq<byte>): Option<(seq<seq<byte>>, seq<byte>)>
    decreases |s|
  {
    match FirstLine(s)
    case None => None
    case Some((line, more)) =>
      if line == [] then Some(([], more))
      else
        match HeadLines(more)
        case None => None
        case Some((lines, rest)) => Some(([line] + lines, rest))
  }

  const LINE_END: seq<byte> := [CR, LF]

  lemma LineIsRead(line: seq<byte>, more: seq<byte>)
    requires CR !in line
    ensures FirstLine(line + (LINE_END + more)) == Some((line, more))
  {
    var s := line + (LINE_END + more);
    assert s[0..|line|] == line && s[|line|] == LINE_END[0] && s[|line| + 1] == LINE_END[1];
    FirstIndexIs(s, CR, 0, |line|);
    assert s[|line| + 2..] == more;
  }

  lemma NextLine(line: seq<byte>, more: seq<byte>, lines: seq<seq<byte>>, rest: seq<byte>)
    requires CR !in line && line != [] && HeadLines(more) == Some((lines, rest))
    ensures HeadLines(line + (LINE_END + more)) == Some(([line] + lines, rest))
  {
    LineIsRead(line, more);
  }

  lemma EmptyLine(rest: seq<byte>)
    ensures HeadLines(LINE_END + rest) == Some(([], rest))
  {
    LineIsRead([], rest);
    assert [] + (LINE_END + rest) == LINE_END + rest;
  }

  lemma {:induction false} AsciiAt(s: string, k: nat)
    requires k < |s|
    ensures |Ascii(s)| == |s| && Ascii(s)[k] == s[k] as int % 0x100
  {
    if |s| > 1 {
      AsciiAt(s[1..], if k > 0 then k - 1 else 0);
    }
  }

  lemma {:induction false} AsciiConcat(a: string, b: string)
    ensures Ascii(a + b) == Ascii(a) + Ascii(b)
  {
    if a == "" {
      assert a + b == b;
    } else {
      assert (a + b)[1..] == a[1..] + b;
      AsciiConcat(a[1..], b);
    }
  }

  /** A text of one line, as far as its characters are those of ASCII. */
  predicate IsOneLine(s: string) {
    s != "" && forall k | 0 <= k < |s| :: '\r' < s[k] <= '~'
  }

  lemma OneLineBytes(s: string)
    requires IsOneLine(s)
    ensures Ascii(s) != [] && CR !in Ascii(s)
  {
    forall k | 0 <= k < |s|
      ensures |Ascii(s)| == |s| && Ascii(s)[k] != CR
    {
      AsciiAt(s, k);
    }
  }

  lemma TwoLines(y: seq<byte>, z: seq<byte>, rest: seq<byte>)
    requires y != [] && z != [] && CR !in y && CR !in z
    ensures HeadLines(y + (LINE_END + (z + (LINE_END + (LINE_END + rest))))) == Some(([y, z], rest))
  {
    EmptyLine(rest);
    NextLine(z, LINE_END + rest, [], rest);
    assert [z] + [] == [z];
    NextLine(y, z + (LINE_END + (LINE_END + rest)), [z], rest);
    assert [y] + [z] == [y, z];
  }

  lemma TwoMore(w: seq<byte>, x: seq<byte>, more: seq<byte>, y: seq<byte>, z: seq<byte>, rest: seq<byte>)
    requires w != [] && x != [] && CR !in w && CR !in x && HeadLines(more) == Some(([y, z], rest))
    ensures HeadLines(w + (LINE_END + (x + (LINE_END + more)))) == Some(([w, x, y, z], rest))
  {
    NextLine(x, more, [y, z], rest);
    assert [x] + [y, z] == [x, y, z];
    NextLine(w, x + (LINE_END + more), [x, y, z], rest);
    assert [w] + [x, y, z] == [w, x, y, z];
  }

  lemma FourLines(w: seq<byte>, x: seq<byte>, y: seq<byte>, z: seq<byte>, rest: seq<byte>)
    requires w != [] && x != [] && y != [] && z != [] && CR !in w && CR !in x && CR !in y && CR !in z
    ensures HeadLines(w + (LINE_END + (x + (LINE_END + (y + (LINE_END + (z + (LINE_END + (LINE_END + rest)))))))))
            == Some(([w, x, y, z], rest))
  {
    TwoLines(y, z, rest);
    TwoMore(w, x, y + (LINE_END + (z + (LINE_END + (LINE_END + rest)))), y, z, rest);
  }

  lemma TextBytes(a: string, b: string, c: string, d: string, e: string)
    ensures Ascii(a + (e + (b + (e + (c + (e + d)))))) ==
            Ascii(a) + (Ascii(e) + (Ascii(b) + (Ascii(e) + (Ascii(c) + (Ascii(e) + Ascii(d))))))
  {
    AsciiConcat(e, d);
    AsciiConcat(c, e + d);
    AsciiConcat(e, c + (e + d));
    AsciiConcat(b, e + (c + (e + d)));
    AsciiConcat(e, b + (e + (c + (e + d))));
    AsciiConcat(a, e + (b + (e + (c + (e + d)))));
  }

  lemma LineEndBytes(e: string)
    requires e == "\r\n"
    ensures Ascii(e) == LINE_END
  {
    assert e[1..][1..] == "";
    assert Ascii(e[1..]) == [LF];
  }

  lemma JoinPieces(w: seq<byte>, x: seq<byte>, y: seq<byte>, z: seq<byte>, digits: seq<byte>, rest: seq<byte>)
    ensures w + (LINE_END + (x + (LINE_END + (y + (LINE_END + z))))) + digits + SUFFIX + rest ==
            w + (LINE_END + (x + (LINE_END + (y + (LINE_END + ((z + digits) + (LINE_END + (LINE_END + rest))))))))
  {
    var tail := digits + (LINE_END + (LINE_END + rest));
    assert digits + SUFFIX + rest == tail;
    var p3 := y + (LINE_END + z);
    var p2 := x + (LINE_END + p3);
    var p1 := w + (LINE_END + p2);
    assert p1 + digits + SUFFIX + rest == p1 + tail;
    assert p3 + tail == y + (LINE_END + ((z + digits) + (LINE_END + (LINE_END + rest))));
    assert p2 + tail == x + (LINE_END + (p3 + tail));
    assert p1 + tail == w + (LINE_END + (p2 + tail));
  }

  /** The fixed part of the head, spelled out. */
  ghost predicate IsHeadText(a: string, b: string, c: string, d: string) {
    && a == "HTTP/1.1 200 OK" && b == "Content-Type: text/plain; charset=UTF-8"
    && c == "Connection: keep-alive" && d == "Content-Length: "
  }

  lemma PrefixIs(a: string, b: string, c: string, d: string, e: string)
    requires IsHeadText(a, b, c, d) && e == "\r\n"
    ensures PREFIX == Ascii(a + (e + (b + (e + (c + (e + d))))))
  {
  }

  lemma HeadIsRead(a: string, b: string, c: string, d: string, e: string, prefix: seq<byte>,
                   body: seq<byte>, rest: seq<byte>)
    requires IsOneLine(a) && IsOneLine(b) && IsOneLine(c) && IsOneLine(d) && e == "\r\n"
    requires prefix == Ascii(a + (e + (b + (e + (c + (e + d))))))
    ensures HeadLines(Head(prefix, |body|) + body + rest) ==
            Some(([Ascii(a), Ascii(b), Ascii(c), Ascii(d) + Numeral(|body|)], body + rest))
  {
    var digits := Numeral(|body|);
    NumeralHasNoLineEnd(|body|);
    TextBytes(a, b, c, d, e);
    LineEndBytes(e);
    OneLineBytes(a);
    OneLineBytes(b);
    OneLineBytes(c);
    OneLineBytes(d);
    FourLines(Ascii(a), Ascii(b), Ascii(c), Ascii(d) + digits, body + rest);
    JoinPieces(Ascii(a), Ascii(b), Ascii(c), Ascii(d), digits, body + rest);
    Associate(Head(prefix, |body|), body, rest);
  }

  /** Read line by line, a response is this status line, these three headers, an empty line and the body. */
  lemma ResponseLines(a: string, b: string, c: string, d: string, body: seq<byte>, rest: seq<byte>)
    requires IsHeadText(a, b, c, d)
    ensures HeadLines(Response(body) + rest) ==
            Some(([Ascii(a), Ascii(b), Ascii(c), Ascii(d) + Numeral(|body|)], body + rest))
  {
    PrefixIs(a, b, c, d, "\r\n");
    HeadIsRead(a, b, c, d, "\r\n", PREFIX, body, rest);
  }
}
