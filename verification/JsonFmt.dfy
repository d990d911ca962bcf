/** The JSON debug printers, and a reader that shows their output is uniquely decodable. */
module JsonFmt {
  import opened Bytes
  import opened Decimal
  import opened Options

  // ----- What is printed -------------------------------------------------------------------

  function HexDigit(d: nat): byte
    requires d < 16
  {
    if d < 10 then ZERO + d else 87 + d
  }

  /** One byte by the string rules: a backslash before `"` and `\`, short forms for three controls, `\xNN` for the others. */
  function Escape(c: byte): seq<byte> {
    if c == BACKSLASH || c == QUOTE then [BACKSLASH, c]
    else if c == 10 then [BACKSLASH, 110]
    else if c == 13 then [BACKSLASH, 114]
    else if c == 9 then [BACKSLASH, 116]
    else if c < 32 then [BACKSLASH, 120, HexDigit(c / 16), HexDigit(c % 16)]
    else [c]
  }

  function Escapes(data: seq<byte>): seq<byte> {
    if data == [] then [] else Escape(data[0]) + Escapes(data[1..])
  }

  function StringText(data: seq<byte>): seq<byte> {
    [QUOTE] + Escapes(data) + [QUOTE]
  }

  function Items(values: seq<int>): seq<byte>
    decreases |values|, 0
  {
    if values == [] then [] else SignedNumeral(values[0]) + MoreItems(values[1..])
  }

  function MoreItems(values: seq<int>): seq<byte>
    decreases |values|, 1
  {
    if values == [] then [] else [COMMA] + Items(values)
  }

  function ListText(values: seq<int>): seq<byte> {
    [OPEN_BRACKET] + Items(values) + [CLOSE_BRACKET]
  }

  predicate IsText(c: byte) {
    c >= 32 || c == 10 || c == 13 || c == 9
  }

  function UpToNul(data: seq<byte>): seq<byte> {
    data[..FirstIndex(data, 0, 0)]
  }

  /** A byte sequence prints as a string when no control byte but the three comes before its first NUL. */
  predicate PrintsAsString(data: seq<byte>) {
    forall k | 0 <= k < |UpToNul(data)| :: IsText(UpToNul(data)[k])
  }

  function U8Text(data: seq<byte>): seq<byte> {
    if PrintsAsString(data) then StringText(UpToNul(data)) else ListText(data)
  }

  // ----- The printers ------------------------------------------------------------------------

  class Stream {
    var out: seq<byte>

    constructor ()
      ensures out == []
    {
      out := [];
    }

    method Put(bytes: seq<byte>)
      modifies this
      ensures out == old(out) + bytes
    {
      out := out + bytes;
    }
  }

  method Putc(stream: Stream?, c: byte)
    modifies stream
    ensures stream != null ==> stream.out == old(stream.out) + Escape(c)
  {
    if stream == null {
      return;
    }
    if c == BACKSLASH || c == QUOTE {
      stream.Put([BACKSLASH]);
      stream.Put([c]);
    } else if c == 10 {
      stream.Put([BACKSLASH, 110]);
    } else if c == 13 {
      stream.Put([BACKSLASH, 114]);
    } else if c == 9 {
      stream.Put([BACKSLASH, 116]);
    } else if c < 32 {
      stream.Put([BACKSLASH, 120, HexDigit(c / 16), HexDigit(c % 16)]);
    } else {
      stream.Put([c]);
    }
  }

  method BytesAsString(stream: Stream?, data: Input, len: nat)
    requires data.Some? ==> len <= |data.value|
    modifies stream
    ensures stream != null ==> stream.out == old(stream.out) + StringText(Argument(data, len))
  {
    if stream == null {
      return;
    }
    ghost var text := Argument(data, len);
    ghost var all := stream.out + StringText(text);
    stream.Put([QUOTE]);
    Enclosed(old(stream.out), [QUOTE], Escapes(text), [QUOTE]);
    if data.Some? {
      for i := 0 to len
        invariant stream.out + (Escapes(text[i..]) + [QUOTE]) == all
      {
        Associate(Escape(text[i]), Escapes(text[i + 1..]), [QUOTE]);
        Associate(stream.out, Escape(text[i]), Escapes(text[i + 1..]) + [QUOTE]);
        Putc(stream, data.value[i]);
      }
      assert Escapes(text[len..]) + [QUOTE] == [QUOTE];
    } else {
      assert Escapes(text) + [QUOTE] == [QUOTE];
    }
    stream.Put([QUOTE]);
  }

  lemma Enclosed(a: seq<byte>, open: seq<byte>, b: seq<byte>, close: seq<byte>)
    ensures a + (open + b + close) == a + open + (b + close)
  {
  }

  method IntSeq(stream: Stream?, data: seq<int>)
    modifies stream
    ensures stream != null ==> stream.out == old(stream.out) + ListText(data)
  {
    if stream == null {
      return;
    }
    ghost var all := stream.out + ListText(data);
    stream.Put([OPEN_BRACKET]);
    Enclosed(old(stream.out), [OPEN_BRACKET], Items(data), [CLOSE_BRACKET]);
    for i := 0 to |data|
      invariant stream.out + Remaining(data, i) == all
    {
      RemainingStep(stream.out, data, i);
      if i != 0 {
        stream.Put([COMMA]);
      }
      stream.Put(SignedNumeral(data[i]));
    }
    assert MoreItems([]) + [CLOSE_BRACKET] == [CLOSE_BRACKET] == Items([]) + [CLOSE_BRACKET];
    stream.Put([CLOSE_BRACKET]);
  }

  /** What is still to be printed of a list before its element `i`. */
  function Remaining(data: seq<int>, i: nat): seq<byte>
    requires i <= |data|
  {
    (if i == 0 then Items(data) else MoreItems(data[i..])) + [CLOSE_BRACKET]
  }

  lemma RemainingStep(out: seq<byte>, data: seq<int>, i: nat)
    requires i < |data|
    ensures out + Remaining(data, i) ==
            (if i == 0 then out else out + [COMMA]) + SignedNumeral(data[i]) + Remaining(data, i + 1)
  {
    var number, more := SignedNumeral(data[i]), MoreItems(data[i + 1..]);
    assert data[i..][1..] == data[i + 1..];
    assert data[0..] == data;
    assert Items(data[i..]) == number + more;
    if i == 0 {
      Pieces(out, [], number, more);
    } else {
      Pieces(out, [COMMA], number, more);
    }
  }

  lemma Pieces(out: seq<byte>, comma: seq<byte>, number: seq<byte>, more: seq<byte>)
    ensures out + (comma + (number + more) + [CLOSE_BRACKET]) == out + comma + number + (more + [CLOSE_BRACKET])
    ensures comma == [] ==> comma + (number + more) == number + more && out + comma == out
  {
  }

  method U8Seq(stream: Stream?, data: Input, len: nat)
    requires if data.Some? then len <= |data.value| else len == 0
    modifies stream
    ensures stream != null ==>
              stream.out == old(stream.out) +
                            if data == None then ListText([]) else U8Text(data.value[..len])
  {
    if stream == null {
      return;
    }
    var allText, shown := true, len;
    ghost var bytes := Argument(data, len);
    if data.Some? && len > 0 {
      var i := 0;
      while i < shown
        invariant 0 <= i <= shown == len
        invariant 0 !in bytes[..i] && forall k | 0 <= k < i :: IsText(bytes[k])
      {
        var c := data.value[i];
        if c == 0 {
          shown := i;
          break;
        }
        if c < 32 && c != 10 && c != 13 && c != 9 {
          allText := false;
          break;
        }
        i := i + 1;
      }
      Classified(bytes, i, allText);
    }
    if allText && data.Some? {
      assert shown == |UpToNul(bytes)| && data.value[..shown] == UpToNul(bytes);
      BytesAsString(stream, data, shown);
      return;
    }
    IntSeq(stream, if data.Some? then data.value[..shown] else []);
  }

  /** Where the classifying scan stops decides the form. */
  lemma Classified(bytes: seq<byte>, i: nat, allText: bool)
    requires i <= |bytes| && 0 !in bytes[..i] && forall k | 0 <= k < i :: IsText(bytes[k])
    requires allText ==> i == |bytes| || bytes[i] == 0
    requires !allText ==> i < |bytes| && bytes[i] != 0 && !IsText(bytes[i])
    ensures allText ==> PrintsAsString(bytes) && UpToNul(bytes) == bytes[..i]
    ensures !allText ==> !PrintsAsString(bytes)
  {
    if allText {
      assert bytes[0..i] == bytes[..i];
      FirstIndexIs(bytes, 0, 0, i);
    } else {
      NoNulBefore(bytes, i);
      assert UpToNul(bytes)[i] == bytes[i];
    }
  }

  lemma NoNulBefore(bytes: seq<byte>, i: nat)
    requires i < |bytes| && 0 !in bytes[..i] && bytes[i] != 0
    ensures i < FirstIndex(bytes, 0, 0)
  {
    var nul := FirstIndex(bytes, 0, 0);
    forall k | 0 <= k <= i
      ensures bytes[k] != 0
    {
      if k < i {
        assert bytes[k] == bytes[..i][k];
      }
    }
  }

  // ----- Reading strings back ------------------------------------------------------------------

  function HexValue(b: byte): Option<nat> {
    if IsDigit(b) then Some(b - ZERO) else if 97 <= b <= 102 then Some(b - 87) else None
  }

  /** The byte an escape stands for and how many bytes it takes. */
  function ReadByte(s: seq<byte>): Option<(byte, nat)> {
    if s == [] || s[0] == QUOTE then None
    else if s[0] != BACKSLASH then Some((s[0], 1))
    else if |s| < 2 then None
    else if s[1] == BACKSLASH || s[1] == QUOTE then Some((s[1], 2))
    else if s[1] == 110 then Some((10, 2))
    else if s[1] == 114 then Some((13, 2))
    else if s[1] == 116 then Some((9, 2))
    else if s[1] == 120 && |s| >= 4 && HexValue(s[2]).Some? && HexValue(s[3]).Some? then
      Some((16 * HexValue(s[2]).value + HexValue(s[3]).value, 4))
    else None
  }

  /** Bytes up to the closing quote, and what follows it. */
  function ReadBody(s: seq<byte>): Option<(seq<byte>, seq<byte>)>
    decreases |s|
  {
    if s != [] && s[0] == QUOTE then Some(([], s[1..]))
    else match ReadByte(s) {
      case None => None
      case Some((c, n)) =>
        if n > |s| || n == 0 then None
        else match ReadBody(s[n..]) {
          case None => None
          case Some((data, rest)) => Some(([c] + data, rest))
        }
    }
  }

  function ReadString(s: seq<byte>): Option<(seq<byte>, seq<byte>)> {
    if s == [] || s[0] != QUOTE then None else ReadBody(s[1..])
  }

  lemma EscapeReadsBack(c: byte, rest: seq<byte>)
    ensures ReadByte(Escape(c) + rest) == Some((c, |Escape(c)|))
    ensures Escape(c)[0] != QUOTE
  {
    var s := Escape(c) + rest;
    assert forall k | 0 <= k < |Escape(c)| :: s[k] == Escape(c)[k];
  }

  lemma NextByteReadsBack(c: byte, tail: seq<byte>, data: seq<byte>, rest: seq<byte>)
    requires ReadBody(tail) == Some((data, rest))
    ensures ReadBody(Escape(c) + tail) == Some(([c] + data, rest))
  {
    EscapeReadsBack(c, tail);
    StartsWith(Escape(c), tail);
  }

  lemma {:induction false} BodyReadsBack(data: seq<byte>, rest: seq<byte>)
    ensures ReadBody(Escapes(data) + [QUOTE] + rest) == Some((data, rest))
    decreases |data|
  {
    if data == [] {
      assert (Escapes(data) + [QUOTE] + rest)[1..] == rest;
    } else {
      var first, others := Escape(data[0]), data[1..];
      var tail := Escapes(others) + [QUOTE] + rest;
      BodyReadsBack(others, rest);
      Regroup(first, Escapes(others), [QUOTE], rest);
      assert Escapes(data) + [QUOTE] + rest == first + tail;
      NextByteReadsBack(data[0], tail, others, rest);
      assert data == [data[0]] + others;
    }
  }

  lemma Regroup(a: seq<byte>, b: seq<byte>, c: seq<byte>, d: seq<byte>)
    ensures a + b + c + d == a + (b + c + d)
  {
  }

  lemma StartsWith(a: seq<byte>, b: seq<byte>)
    requires a != []
    ensures (a + b)[0] == a[0] && (a + b)[|a|..] == b
  {
  }

  /** Printed strings are self-delimiting: a reader recovers the bytes and whatever was printed after them. */
  lemma StringReadsBack(data: seq<byte>, rest: seq<byte>)
    ensures ReadString(StringText(data) + rest) == Some((data, rest))
  {
    BodyReadsBack(data, rest);
    assert (StringText(data) + rest)[1..] == Escapes(data) + [QUOTE] + rest;
  }

  /** So no two different byte strings, whatever follows them, print alike. */
  lemma StringsAreUnique(a: seq<byte>, b: seq<byte>, restA: seq<byte>, restB: seq<byte>)
    requires StringText(a) + restA == StringText(b) + restB
    ensures a == b && restA == restB
  {
    StringReadsBack(a, restA);
    StringReadsBack(b, restB);
  }

  // ----- Reading lists back ----------------------------------------------------------------------

  predicate IsNumberByte(b: byte) {
    IsDigit(b) || b == MINUS
  }

  function NumberEnd(s: seq<byte>): (n: nat)
    ensures n <= |s|
  {
    if s != [] && IsNumberByte(s[0]) then 1 + NumberEnd(s[1..]) else 0
  }

  function ReadItems(s: seq<byte>): Option<(seq<int>, seq<byte>)>
    decreases |s|
  {
    var n := NumberEnd(s);
    if n == 0 || n >= |s| then None
    else if s[n] == CLOSE_BRACKET then Some(([SignedValue(s[..n])], s[n + 1..]))
    else if s[n] != COMMA then None
    else match ReadItems(s[n + 1..]) {
      case None => None
      case Some((values, rest)) => Some(([SignedValue(s[..n])] + values, rest))
    }
  }

  function ReadList(s: seq<byte>): Option<(seq<int>, seq<byte>)> {
    if |s| < 2 || s[0] != OPEN_BRACKET then None
    else if s[1] == CLOSE_BRACKET then Some(([], s[2..]))
    else ReadItems(s[1..])
  }

  lemma {:induction false} NumberEnds(digits: seq<byte>, tail: seq<byte>)
    requires forall k | 0 <= k < |digits| :: IsNumberByte(digits[k])
    requires tail != [] && !IsNumberByte(tail[0])
    ensures NumberEnd(digits + tail) == |digits|
    decreases |digits|
  {
    if digits == [] {
      assert digits + tail == tail;
    } else {
      assert (digits + tail)[1..] == digits[1..] + tail;
      NumberEnds(digits[1..], tail);
    }
  }

  lemma NumeralBytes(v: int)
    ensures SignedNumeral(v) != []
    ensures forall k | 0 <= k < |SignedNumeral(v)| :: IsNumberByte(SignedNumeral(v)[k])
  {
    NumeralReadsBack(if v < 0 then -v else v);
  }

  lemma NumberReadsBack(v: int, tail: seq<byte>)
    requires tail != [] && !IsNumberByte(tail[0])
    ensures var s := SignedNumeral(v) + tail;
            NumberEnd(s) == |SignedNumeral(v)| > 0 && SignedValue(s[..NumberEnd(s)]) == v && s[NumberEnd(s)..] == tail
  {
    NumeralBytes(v);
    NumberEnds(SignedNumeral(v), tail);
    SignedNumeralReadsBack(v);
    assert (SignedNumeral(v) + tail)[..|SignedNumeral(v)|] == SignedNumeral(v);
  }

  lemma LastItemReads(v: int, rest: seq<byte>)
    ensures ReadItems(SignedNumeral(v) + ([CLOSE_BRACKET] + rest)) == Some(([v], rest))
  {
    var tail := [CLOSE_BRACKET] + rest;
    NumberReadsBack(v, tail);
    OneItem(SignedNumeral(v) + tail, v, tail);
    StartsWith([CLOSE_BRACKET], rest);
  }

  lemma NextItemReads(v: int, more: seq<byte>, values: seq<int>, rest: seq<byte>)
    requires ReadItems(more) == Some((values, rest))
    ensures ReadItems(SignedNumeral(v) + ([COMMA] + more)) == Some(([v] + values, rest))
  {
    var tail := [COMMA] + more;
    NumberReadsBack(v, tail);
    StartsWith([COMMA], more);
    OneItem(SignedNumeral(v) + tail, v, tail);
  }

  lemma ItemsUnfold(values: seq<int>)
    requires values != []
    ensures |values| == 1 ==> Items(values) == SignedNumeral(values[0])
    ensures |values| > 1 ==> Items(values) == SignedNumeral(values[0]) + ([COMMA] + Items(values[1..]))
  {
    if |values| == 1 {
      assert MoreItems(values[1..]) == [];
    }
  }

  lemma RegroupItems(n: seq<byte>, m: seq<byte>, rest: seq<byte>)
    ensures n + [CLOSE_BRACKET] + rest == n + ([CLOSE_BRACKET] + rest)
    ensures n + ([COMMA] + m) + [CLOSE_BRACKET] + rest == n + ([COMMA] + (m + [CLOSE_BRACKET] + rest))
  {
  }

  lemma {:induction false} ItemsReadBack(s: seq<byte>, values: seq<int>, rest: seq<byte>)
    requires values != [] && s == Items(values) + [CLOSE_BRACKET] + rest
    ensures ReadItems(s) == Some((values, rest))
    decreases |values|
  {
    var n, m := SignedNumeral(values[0]), Items(values[1..]);
    ItemsUnfold(values);
    RegroupItems(n, m, rest);
    assert values == [values[0]] + values[1..];
    if |values| == 1 {
      LastItemReads(values[0], rest);
      assert values == [values[0]];
    } else {
      ItemsReadBack(m + [CLOSE_BRACKET] + rest, values[1..], rest);
      NextItemReads(values[0], m + [CLOSE_BRACKET] + rest, values[1..], rest);
    }
  }

  lemma OneItem(s: seq<byte>, v: int, tail: seq<byte>)
    requires tail != [] && 0 < NumberEnd(s) && s[NumberEnd(s)..] == tail && SignedValue(s[..NumberEnd(s)]) == v
    ensures tail[0] == CLOSE_BRACKET ==> ReadItems(s) == Some(([v], tail[1..]))
    ensures tail[0] == COMMA && ReadItems(tail[1..]).Some? ==>
              ReadItems(s) == Some(([v] + ReadItems(tail[1..]).value.0, ReadItems(tail[1..]).value.1))
  {
    var n := NumberEnd(s);
    assert s[n] == tail[0] && s[n + 1..] == tail[1..];
  }

  /** Printed integer lists are self-delimiting and lose nothing. */
  lemma ListReadsBack(values: seq<int>, rest: seq<byte>)
    ensures ReadList(ListText(values) + rest) == Some((values, rest))
  {
    var s := ListText(values) + rest;
    assert s[1..] == Items(values) + [CLOSE_BRACKET] + rest;
    if values == [] {
      assert s[2..] == rest;
    } else {
      ItemsReadBack(s[1..], values, rest);
      NumeralBytes(values[0]);
      assert s[1] == SignedNumeral(values[0])[0];
    }
  }

  // ----- The two forms of a byte sequence ------------------------------------------------------------

  datatype U8Value = Text(bytes: seq<byte>) | List(values: seq<int>)

  function ReadU8(s: seq<byte>): Option<(U8Value, seq<byte>)> {
    if s != [] && s[0] == QUOTE then
      match ReadString(s) {
        case None => None
        case Some((bytes, rest)) => Some((Text(bytes), rest))
      }
    else
      match ReadList(s) {
        case None => None
        case Some((values, rest)) => Some((List(values), rest))
      }
  }

  /** A printed byte sequence decodes to the bytes before its first NUL in string form and to all of them in list form. */
  lemma U8ReadsBack(data: seq<byte>, rest: seq<byte>)
    ensures ReadU8(U8Text(data) + rest) ==
            Some((if PrintsAsString(data) then Text(UpToNul(data)) else List(data), rest))
  {
    StringReadsBack(UpToNul(data), rest);
    ListReadsBack(data, rest);
    assert (U8Text(data) + rest)[0] == U8Text(data)[0];
  }

  // ----- Which strings are legal JSON ------------------------------------------------------------------

  predicate IsTail(b: byte) {
    0x80 <= b <= 0xBF
  }

  /** The length of the multi-byte character that the bytes start with, by section 4 of RFC 3629; 0 for none. */
  function CharLength(s: seq<byte>): (n: nat)
    ensures n == 0 || 2 <= n <= |s|
    ensures forall k | 1 <= k < n :: IsTail(s[k])
  {
    if |s| < 2 || !IsTail(s[1]) then 0
    else if 0xC2 <= s[0] <= 0xDF then 2
    else if |s| < 3 || !IsTail(s[2]) then 0
    else if (s[0] == 0xE0 && 0xA0 <= s[1]) || 0xE1 <= s[0] <= 0xEC || (s[0] == 0xED && s[1] <= 0x9F) ||
            0xEE <= s[0] <= 0xEF then 3
    else if |s| < 4 || !IsTail(s[3]) then 0
    else if (s[0] == 0xF0 && 0x90 <= s[1]) || 0xF1 <= s[0] <= 0xF3 || (s[0] == 0xF4 && s[1] <= 0x8F) then 4
    else 0
  }

  predicate IsUtf8(data: seq<byte>)
    decreases |data|
  {
    if data == [] then true
    else if data[0] < 128 then IsUtf8(data[1..])
    else CharLength(data) > 0 && IsUtf8(data[CharLength(data)..])
  }

  /** The characters of a string by sections 7 and 8.1 of RFC 8259, in UTF-8, up to and including the closing quote. */
  predicate LegalBody(s: seq<byte>)
    decreases |s|
  {
    if s == [] then false
    else if s[0] == QUOTE then |s| == 1
    else if s[0] < 32 then false
    else if s[0] >= 128 then CharLength(s) > 0 && LegalBody(s[CharLength(s)..])
    else if s[0] != BACKSLASH then LegalBody(s[1..])
    else if |s| < 2 then false
    else if s[1] == 117 then
      |s| >= 6 && (forall k | 2 <= k < 6 :: IsDigit(s[k]) || 65 <= s[k] <= 70 || 97 <= s[k] <= 102) && LegalBody(s[6..])
    else s[1] in [QUOTE, BACKSLASH, SLASH, 98, 102, 110, 114, 116] && LegalBody(s[2..])
  }

  lemma LegalEscape(c: byte, tail: seq<byte>)
    requires c < 128
    ensures LegalBody(Escape(c) + tail) <==> IsText(c) && LegalBody(tail)
  {
    var s := Escape(c) + tail;
    assert forall k | 0 <= k < |Escape(c)| :: s[k] == Escape(c)[k];
    assert s[|Escape(c)|..] == tail;
  }

  /** Every byte of a multi-byte character is printed as it is. */
  lemma {:induction false} HighBytesStay(data: seq<byte>, n: nat)
    requires n <= |data| && forall k | 0 <= k < n :: data[k] >= 128
    ensures Escapes(data) == data[..n] + Escapes(data[n..])
  {
    if n == 0 {
      assert data[n..] == data;
    } else {
      var rest := data[1..];
      HighBytesStay(rest, n - 1);
      assert rest[n - 1..] == data[n..] && data[..n] == [data[0]] + rest[..n - 1];
      Associate([data[0]], rest[..n - 1], Escapes(data[n..]));
    }
  }

  /** The two have the same continuation byte at `k`, or neither has one. */
  ghost predicate SameTail(a: seq<byte>, b: seq<byte>, k: nat) {
    && (k < |a| && IsTail(a[k]) <==> k < |b| && IsTail(b[k]))
    && (k < |a| && IsTail(a[k]) ==> a[k] == b[k])
  }

  /** Whether bytes start with a character is decided by up to three continuation bytes. */
  lemma SameTails(a: seq<byte>, b: seq<byte>)
    requires a != [] && b != [] && a[0] == b[0] && SameTail(a, b, 1)
    requires 1 < |a| && IsTail(a[1]) ==> SameTail(a, b, 2) && (2 < |a| && IsTail(a[2]) ==> SameTail(a, b, 3))
    ensures CharLength(a) == CharLength(b)
  {
  }

  lemma PrintedFirst(data: seq<byte>)
    ensures var out := Escapes(data) + [QUOTE];
            out != [] && (IsTail(out[0]) <==> data != [] && IsTail(data[0])) && (IsTail(out[0]) ==> out[0] == data[0])
  {
    if data != [] {
      assert (Escapes(data) + [QUOTE])[0] == Escape(data[0])[0];
    }
  }

  /** The printed form starts with a continuation byte exactly when the data does. */
  lemma PrintedTail(data: seq<byte>, k: nat)
    requires 1 <= k <= |data| && forall j | 0 <= j < k :: data[j] >= 128
    ensures var out := Escapes(data) + [QUOTE]; out[0] == data[0] && SameTail(data, out, k)
  {
    HighBytesStay(data, k);
    var out, rest := Escapes(data) + [QUOTE], Escapes(data[k..]) + [QUOTE];
    PrintedFirst(data[k..]);
    assert out == data[..k] + rest;
    assert out[k] == rest[0] && (k < |data| ==> data[k..][0] == data[k]);
  }

  lemma CharLengthPrinted(data: seq<byte>)
    requires data != [] && data[0] >= 128
    ensures CharLength(Escapes(data) + [QUOTE]) == CharLength(data)
  {
    PrintedTail(data, 1);
    if 1 < |data| && IsTail(data[1]) {
      PrintedTail(data, 2);
      if 2 < |data| && IsTail(data[2]) {
        PrintedTail(data, 3);
      }
    }
    SameTails(data, Escapes(data) + [QUOTE]);
  }

  predicate AllText(data: seq<byte>) {
    forall k | 0 <= k < |data| :: IsText(data[k])
  }

  lemma TextFirst(data: seq<byte>, n: nat)
    requires 0 < n <= |data| && forall k | 1 <= k < n :: data[k] >= 128
    ensures AllText(data) <==> IsText(data[0]) && AllText(data[n..])
  {
    var rest := data[n..];
    assert forall k | 0 <= k < |rest| :: rest[k] == data[n + k];
    assert forall k | n <= k < |data| :: data[k] == rest[k - n];
  }

  /**
   * A byte string prints as legal JSON exactly when its control bytes are all among newline, return
   * and tab and it is well-formed UTF-8.
   */
  lemma {:induction false} LegalJsonIff(data: seq<byte>)
    ensures LegalBody(Escapes(data) + [QUOTE]) <==> IsUtf8(data) && AllText(data)
    decreases |data|
  {
    if data != [] {
      var n := if data[0] < 128 then 1 else CharLength(data);
      if n == 0 {
        CharLengthPrinted(data);
      } else {
        LegalFirst(data, n);
        LegalJsonIff(data[n..]);
        TextFirst(data, n);
      }
    }
  }

  /** The first character of the data is legal on its own. */
  lemma LegalFirst(data: seq<byte>, n: nat)
    requires data != [] && 0 < n == if data[0] < 128 then 1 else CharLength(data)
    ensures LegalBody(Escapes(data) + [QUOTE]) <==> IsText(data[0]) && LegalBody(Escapes(data[n..]) + [QUOTE])
  {
    var tail := Escapes(data[n..]) + [QUOTE];
    if data[0] < 128 {
      Associate(Escape(data[0]), Escapes(data[1..]), [QUOTE]);
      LegalEscape(data[0], tail);
    } else {
      CharLengthPrinted(data);
      HighBytesStay(data, n);
      Associate(data[..n], Escapes(data[n..]), [QUOTE]);
      LegalHigh(Escapes(data) + [QUOTE], data[..n], tail);
    }
  }

  lemma LegalHigh(out: seq<byte>, first: seq<byte>, tail: seq<byte>)
    requires out == first + tail && |first| > 0 && first[0] >= 128 && CharLength(out) == |first|
    ensures LegalBody(out) <==> LegalBody(tail)
  {
    assert out[|first|..] == tail;
  }

  /** What follows the opening quote of a string form is legal exactly when the text before the NUL is UTF-8. */
  lemma U8StringIsLegalIff(data: seq<byte>)
    requires PrintsAsString(data)
    ensures U8Text(data)[0] == QUOTE && (LegalBody(U8Text(data)[1..]) <==> IsUtf8(UpToNul(data)))
  {
    LegalJsonIff(UpToNul(data));
    assert StringText(UpToNul(data))[1..] == Escapes(UpToNul(data)) + [QUOTE];
  }

  /** The string form is printed exactly when before any control byte but 9, 10 and 13 there is a NUL. */
  lemma U8FormIff(data: seq<byte>)
    ensures U8Text(data)[0] == '"' as int <==>
            forall k | 0 <= k < |data| && data[k] < 32 && data[k] !in [9, 10, 13] :: exists j :: 0 <= j <= k && data[j] == 0
    ensures U8Text(data)[0] == '"' as int || U8Text(data)[0] == '[' as int
  {
    var nul := FirstIndex(data, 0, 0);
    var text := UpToNul(data);
    assert forall k | 0 <= k < nul :: text[k] == data[k] && data[k] == data[0..nul][k];
    assert PrintsAsString(data) <==> forall k | 0 <= k < nul :: IsText(data[k]);
    if PrintsAsString(data) {
      forall k | 0 <= k < |data| && !IsText(data[k])
        ensures exists j :: 0 <= j <= k && data[j] == 0
      {
        assert nul <= k && data[nul] == 0;
      }
    } else {
      var k :| 0 <= k < nul && !IsText(data[k]);
      assert data[k] < 32 && data[k] !in [9, 10, 13];
    }
  }
}
