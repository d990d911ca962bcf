/** The arguments that the event encoders write, for a reader that knows JSON and nothing of this codec. */
module EventJson {
  import opened Append
  import opened Bytes
  import opened NamespaceComma
  import opened Options
  import opened SocketIo
  import JsonFmt

  // ----- A strict reader -----------------------------------------------------------------------------

  /** The byte that the second byte of an escape stands for, by section 7 of RFC 8259. */
  function Unescaped(b: byte): Option<byte> {
    if b == '"' as int || b == '\\' as int || b == '/' as int then Some(b)
    else if b == 'b' as int then Some(8)
    else if b == 'f' as int then Some(12)
    else if b == 'n' as int then Some(10)
    else if b == 'r' as int then Some(13)
    else if b == 't' as int then Some(9)
    else None
  }

  function Prepend(bytes: seq<byte>, r: Option<(seq<byte>, seq<byte>)>): Option<(seq<byte>, seq<byte>)> {
    match r
    case None => None
    case Some((value, rest)) => Some((bytes + value, rest))
  }

  /**
   * The characters of a string behind its opening quote, and what follows the closing one. It takes
   * UTF-8 without control bytes; the escapes with four digits, which nobody writes here, are refused.
   */
  function ReadChars(s: seq<byte>): Option<(seq<byte>, seq<byte>)>
    decreases |s|
  {
    if s == [] || s[0] < 32 then None
    else if s[0] == '"' as int then Some(([], s[1..]))
    else if s[0] == '\\' as int then
      if |s| < 2 || Unescaped(s[1]) == None then None else Prepend([Unescaped(s[1]).value], ReadChars(s[2..]))
    else if s[0] < 128 then Prepend([s[0]], ReadChars(s[1..]))
    else if JsonFmt.CharLength(s) == 0 then None
    else Prepend(s[..JsonFmt.CharLength(s)], ReadChars(s[JsonFmt.CharLength(s)..]))
  }

  function NullThenBracket(): seq<byte> {
    ['n' as int, 'u' as int, 'l' as int, 'l' as int, ']' as int]
  }

  /** Exactly one array of a string and, as its second element, a string or `null` (sections 3 and 5 of RFC 8259). */
  function ReadEvent(s: seq<byte>): Option<(seq<byte>, Option<seq<byte>>)> {
    if |s| < 2 || s[0] != '[' as int || s[1] != '"' as int then None
    else match ReadChars(s[2..]) {
      case None => None
      case Some((event, more)) =>
        if more == [] || more[0] != ',' as int then None
        else if more[1..] == NullThenBracket() then Some((event, None))
        else if |more| < 2 || more[1] != '"' as int then None
        else match ReadChars(more[2..]) {
          case None => None
          case Some((data, end)) => if end == [']' as int] then Some((event, Some(data))) else None
        }
    }
  }

  // ----- What it reads of an escaped string ----------------------------------------------------------

  /** UTF-8 without control bytes. */
  ghost predicate IsJsonText(s: seq<byte>) {
    JsonFmt.IsUtf8(s) && forall k | 0 <= k < |s| :: s[k] >= 32
  }

  lemma EscapedFirst(s: seq<byte>)
    requires s != []
    ensures Escaped(s) == (if IsSpecial(s[0]) then [BACKSLASH, s[0]] else [s[0]]) + Escaped(s[1..])
  {
  }

  /** Bytes outside ASCII are written as they are. */
  lemma {:induction false} HighStay(s: seq<byte>, n: nat)
    requires n <= |s| && forall k | 0 <= k < n :: s[k] >= 128
    ensures Escaped(s) == s[..n] + Escaped(s[n..])
  {
    if n == 0 {
      assert s[n..] == s;
    } else {
      var rest := s[1..];
      HighStay(rest, n - 1);
      EscapedFirst(s);
      assert rest[n - 1..] == s[n..] && s[..n] == [s[0]] + rest[..n - 1];
      Associate([s[0]], rest[..n - 1], Escaped(s[n..]));
    }
  }

  lemma StartIsTail(s: seq<byte>, rest: seq<byte>)
    ensures var out := Escaped(s) + ([QUOTE] + rest);
            && out != [] && (JsonFmt.IsTail(out[0]) <==> s != [] && JsonFmt.IsTail(s[0]))
            && (JsonFmt.IsTail(out[0]) ==> out[0] == s[0])
  {
    if s != [] {
      EscapedFirst(s);
      assert (Escaped(s) + ([QUOTE] + rest))[0] == Escaped(s)[0];
    }
  }

  lemma TailIsKept(s: seq<byte>, rest: seq<byte>, k: nat)
    requires 1 <= k <= |s| && forall j | 0 <= j < k :: s[j] >= 128
    ensures var out := Escaped(s) + ([QUOTE] + rest); out[0] == s[0] && JsonFmt.SameTail(s, out, k)
  {
    var u := s[k..];
    var after := Escaped(u) + ([QUOTE] + rest);
    HighStay(s, k);
    StartIsTail(u, rest);
    Associate(s[..k], Escaped(u), [QUOTE] + rest);
    TailAfter(s, k, u, Escaped(s) + ([QUOTE] + rest), after);
  }

  lemma TailAfter(s: seq<byte>, k: nat, u: seq<byte>, out: seq<byte>, after: seq<byte>)
    requires 1 <= k <= |s| && u == s[k..] && out == s[..k] + after && after != []
    requires JsonFmt.IsTail(after[0]) <==> u != [] && JsonFmt.IsTail(u[0])
    requires JsonFmt.IsTail(after[0]) ==> after[0] == u[0]
    ensures out[0] == s[0] && JsonFmt.SameTail(s, out, k)
  {
    assert out[k] == after[0] && (k < |s| ==> u[0] == s[k]);
  }

  lemma SameCharLength(s: seq<byte>, rest: seq<byte>)
    requires s != [] && s[0] >= 128
    ensures JsonFmt.CharLength(Escaped(s) + ([QUOTE] + rest)) == JsonFmt.CharLength(s)
  {
    TailIsKept(s, rest, 1);
    if 1 < |s| && JsonFmt.IsTail(s[1]) {
      TailIsKept(s, rest, 2);
      if 2 < |s| && JsonFmt.IsTail(s[2]) {
        TailIsKept(s, rest, 3);
      }
    }
    JsonFmt.SameTails(s, Escaped(s) + ([QUOTE] + rest));
  }

  lemma TextFirst(s: seq<byte>, n: nat)
    requires s != [] && n == if s[0] < 128 then 1 else JsonFmt.CharLength(s)
    ensures IsJsonText(s) <==> n > 0 && s[0] >= 32 && IsJsonText(s[n..])
  {
    if n > 0 {
      var rest := s[n..];
      assert forall k | 0 <= k < |rest| :: rest[k] == s[n + k];
      assert forall k | n <= k < |s| :: s[k] == rest[k - n];
    }
  }

  lemma ReadFirst(s: seq<byte>, rest: seq<byte>, n: nat)
    requires s != [] && 0 < n == if s[0] < 128 then 1 else JsonFmt.CharLength(s)
    ensures ReadChars(Escaped(s) + ([QUOTE] + rest)) ==
            if s[0] < 32 then None else Prepend(s[..n], ReadChars(Escaped(s[n..]) + ([QUOTE] + rest)))
  {
    var out, after := Escaped(s) + ([QUOTE] + rest), Escaped(s[n..]) + ([QUOTE] + rest);
    if s[0] < 128 {
      EscapedFirst(s);
      var first := if IsSpecial(s[0]) then [BACKSLASH, s[0]] else [s[0]];
      Associate(first, Escaped(s[1..]), [QUOTE] + rest);
      assert out[0] == first[0] && out[|first|..] == after && s[..1] == [s[0]];
      assert IsSpecial(s[0]) ==> out[1] == s[0];
    } else {
      SameCharLength(s, rest);
      HighStay(s, n);
      Associate(s[..n], Escaped(s[n..]), [QUOTE] + rest);
      assert out[..n] == s[..n] && out[n..] == after && out[0] == s[0];
    }
  }

  /** The reader gives back every string that JSON can hold as it is, and refuses all others. */
  lemma {:induction false} EscapedIsRead(s: seq<byte>, rest: seq<byte>)
    ensures ReadChars(Escaped(s) + ([QUOTE] + rest)) == if IsJsonText(s) then Some((s, rest)) else None
    decreases |s|
  {
    var out := Escaped(s) + ([QUOTE] + rest);
    if s == [] {
      assert out == [QUOTE] + rest && out[1..] == rest;
    } else {
      var n := if s[0] < 128 then 1 else JsonFmt.CharLength(s);
      TextFirst(s, n);
      if n == 0 {
        SameCharLength(s, rest);
        TailIsKept(s, rest, 1);
      } else {
        ReadFirst(s, rest, n);
        EscapedIsRead(s[n..], rest);
        assert s == s[..n] + s[n..];
      }
    }
  }

  // ----- What it reads of the arguments --------------------------------------------------------------

  lemma Regroup(e: seq<byte>, d: seq<byte>)
    ensures [OPEN_BRACKET] + ([QUOTE] + e + [QUOTE]) + [COMMA] + d + [CLOSE_BRACKET] ==
            [OPEN_BRACKET, QUOTE] + (e + ([QUOTE] + ([COMMA] + d + [CLOSE_BRACKET])))
  {
    var tail := [COMMA] + d + [CLOSE_BRACKET];
    assert [OPEN_BRACKET] + ([QUOTE] + e + [QUOTE]) == [OPEN_BRACKET, QUOTE] + e + [QUOTE];
    assert [OPEN_BRACKET, QUOTE] + e + [QUOTE] + [COMMA] + d + [CLOSE_BRACKET] ==
           [OPEN_BRACKET, QUOTE] + e + [QUOTE] + tail;
  }

  lemma ArgumentsSplit(event: seq<byte>, data: seq<byte>)
    ensures ArgumentsText(event, data) ==
            [OPEN_BRACKET, QUOTE] + (Escaped(event) + ([QUOTE] + ([COMMA] + DataText(data) + [CLOSE_BRACKET])))
  {
    Regroup(Escaped(event), DataText(data));
  }

  lemma DataSplit(data: seq<byte>)
    requires data != []
    ensures [COMMA] + DataText(data) + [CLOSE_BRACKET] == [COMMA, QUOTE] + (Escaped(data) + ([QUOTE] + [CLOSE_BRACKET]))
  {
  }

  /**
   * The arguments are one JSON array that holds the event and the data, or `null` for none, exactly
   * when both are UTF-8 without control bytes.
   */
  lemma ArgumentsAreJsonIff(event: seq<byte>, data: seq<byte>)
    ensures ReadEvent(ArgumentsText(event, data)) == Some((event, if data == [] then None else Some(data))) <==>
            IsJsonText(event) && IsJsonText(data)
  {
    var s, more := ArgumentsText(event, data), [COMMA] + DataText(data) + [CLOSE_BRACKET];
    ArgumentsSplit(event, data);
    assert s[2..] == Escaped(event) + ([QUOTE] + more);
    EscapedIsRead(event, more);
    if data == [] {
      assert more[1..] == NullThenBracket();
    } else {
      DataSplit(data);
      assert more[2..] == Escaped(data) + ([QUOTE] + [CLOSE_BRACKET]);
      assert more[1..][0] == QUOTE;
      EscapedIsRead(data, [CLOSE_BRACKET]);
    }
  }

  lemma PacketPieces(p: seq<byte>, a: byte, b: byte, head: seq<byte>, args: seq<byte>)
    requires p == [a] + ([b] + head + args)
    ensures |p| == 2 + |head| + |args| && p[0] == a && p[1] == b
    ensures p[2..2 + |head|] == head && p[2 + |head|..] == args
  {
  }

  lemma SliceOfPrefix(out: seq<byte>, n: nat, i: nat, j: nat)
    requires i <= j <= n <= |out|
    ensures out[i..j] == out[..n][i..j]
  {
  }

  /**
   * On the bytes an encoder produced: the digits 4 and 2, the head, then the arguments, which such a
   * reader understands exactly under that condition.
   */
  lemma WireFormat(out: seq<byte>, before: seq<byte>, outCap: int, n: int, h: Head, event: seq<byte>, data: seq<byte>)
    requires outCap <= |before| && Encodes(Length(n), out, before, outCap, EventText(HeadText(h), event, data))
    ensures var start := 2 + |HeadText(h)|;
            && start <= n <= |out| && n <= 513
            && out[0] == '4' as int && out[1] == '2' as int && out[2..start] == HeadText(h)
            && (ReadEvent(out[start..n]) == Some((event, if data == [] then None else Some(data))) <==>
                  IsJsonText(event) && IsJsonText(data))
  {
    var head, args := HeadText(h), ArgumentsText(event, data);
    var packet := PacketText(EIO_MESSAGE, EventText(head, event, data));
    WrittenPrefix(out, before, 0, packet);
    PacketPieces(packet, ZERO + EIO_MESSAGE, SIO_EVENT, head, args);
    assert out[..n] == packet;
    SliceOfPrefix(out, n, 2, 2 + |head|);
    SliceOfPrefix(out, n, 2 + |head|, n);
    assert packet[2 + |head|..n] == packet[2 + |head|..];
    ArgumentsAreJsonIff(event, data);
  }
}
