/** Exactly which packets the event decoder understands, whoever wrote them, and as what. */
module EventReading {
  import opened Bytes
  import opened EventDecoder
  import opened NamespaceComma
  import opened Options
  import opened SocketIo

  // ----- What a packet may look like -----------------------------------------------------------------

  /** Digits, then nothing or a slash and whatever ends with the first comma behind it; `k` digits. */
  ghost predicate IsSkipped(head: seq<byte>, k: nat) {
    && k <= |head| && (forall j | 0 <= j < k :: '0' as int <= head[j] <= '9' as int)
    && (k == |head| ||
        (head[k] == '/' as int && head[|head| - 1] == ',' as int && ',' as int !in head[k..|head| - 1]))
  }

  /** The first two letters of `null` and two bytes more, or a string up to its first quote. */
  ghost predicate IsData(s: seq<byte>, d: seq<byte>, data: seq<byte>, dataCap: int) {
    || (|s| >= 4 && s[0] == 'n' as int && s[1] == 'u' as int && data == [])
    || (|s| >= |d| + 2 && s[0] == '"' as int && s[1..1 + |d|] == d && s[1 + |d|] == '"' as int && '"' as int !in d
        && data == Heard(d) && (d == [] || |d| <= dataCap))
  }

  /** The pieces of a packet: the skipped head, the event as written, one byte, and what holds the data. */
  datatype Pieces = Pieces(head: seq<byte>, digits: nat, event: seq<byte>, gap: byte, rest: seq<byte>, data: seq<byte>)

  /** The packet is made of these pieces, and they are heard as the event and the data and fit. */
  ghost predicate IsReading(p: seq<byte>, w: Pieces, event: seq<byte>, data: seq<byte>, eventCap: int, dataCap: int) {
    && p == ['2' as int] + w.head + (['[' as int, '"' as int] + w.event + ['"' as int, w.gap] + w.rest)
    && IsSkipped(w.head, w.digits)
    && '"' as int !in w.event && w.event != [] && event == Heard(w.event) && |w.event| < eventCap
    && IsData(w.rest, w.data, data, dataCap)
  }

  // ----- The data ------------------------------------------------------------------------------------

  lemma IsDataIsRead(p: seq<byte>, i: nat, d: seq<byte>, data: seq<byte>, dataCap: int)
    requires i <= |p| && IsData(p[i..], d, data, dataCap)
    ensures DataAt(p, i, dataCap) == Some(data)
  {
    var s := p[i..];
    assert s[0] == p[i] && s[1] == p[i + 1];
    if s[0] == QUOTE {
      assert p[i + 1..i + 1 + |d|] == s[1..1 + |d|] && p[i + 1 + |d|] == s[1 + |d|];
      ScanIsHeard(p, i + 1, d);
    }
  }

  lemma ReadIsData(p: seq<byte>, i: nat, data: seq<byte>, dataCap: int) returns (d: seq<byte>)
    requires i <= |p| && DataAt(p, i, dataCap) == Some(data)
    ensures IsData(p[i..], d, data, dataCap)
  {
    var s := p[i..];
    d := [];
    if p[i] == QUOTE {
      var close := FirstIndex(p, QUOTE, i + 1);
      d := p[i + 1..close];
      ScanIsHeard(p, i + 1, d);
      assert s[1..1 + |d|] == d && s[1 + |d|] == p[close];
    } else {
      assert s[0] == p[i] && s[1] == p[i + 1];
    }
  }

  // ----- The head ------------------------------------------------------------------------------------

  lemma {:induction false} DigitsSkipped(p: seq<byte>, i: nat, j: nat)
    requires i <= j < |p| && (forall k | i <= k < j :: IsDigit(p[k])) && !IsDigit(p[j])
    ensures SkipDigits(p, i) == j
    decreases j - i
  {
    if i < j {
      DigitsSkipped(p, i + 1, j);
    }
  }

  lemma HeadIsSkipped(p: seq<byte>, head: seq<byte>, k: nat)
    requires 1 + |head| < |p| && p[1..1 + |head|] == head && IsSkipped(head, k) && p[1 + |head|] == '[' as int
    ensures BodyStart(p) == Some(1 + |head|)
  {
    assert forall j | 0 <= j < |head| :: p[1 + j] == head[j];
    assert forall j | 1 <= j < 1 + k :: p[j] == head[j - 1];
    DigitsSkipped(p, 1, 1 + k);
    if k < |head| {
      assert p[1 + k..|head|] == head[k..|head| - 1];
      FirstIndexIs(p, COMMA, 1 + k, |head|);
    }
  }

  lemma SlashHead(p: seq<byte>, k: nat, comma: nat)
    requires 1 + k < comma < |p| && (forall j | 1 <= j < 1 + k :: IsDigit(p[j]))
    requires p[1 + k] == SLASH && p[comma] == COMMA && COMMA !in p[1 + k..comma]
    ensures IsSkipped(p[1..comma + 1], k)
  {
    var head := p[1..comma + 1];
    assert forall j | 0 <= j < |head| :: head[j] == p[1 + j];
    assert head[k..|head| - 1] == p[1 + k..comma];
  }

  lemma SkippedIsHead(p: seq<byte>, b: nat)
    requires p != [] && BodyStart(p) == Some(b)
    ensures 1 <= b <= |p| && IsSkipped(p[1..b], SkipDigits(p, 1) - 1)
  {
    var i := SkipDigits(p, 1);
    if i < |p| && p[i] == SLASH {
      SlashHead(p, i - 1, b - 1);
    } else {
      assert forall j | 0 <= j < i - 1 :: p[1..b][j] == p[1 + j];
    }
  }

  // ----- The packet ----------------------------------------------------------------------------------

  lemma PiecesAt(p: seq<byte>, head: seq<byte>, e: seq<byte>, gap: byte, rest: seq<byte>)
    requires p == ['2' as int] + head + (['[' as int, '"' as int] + e + ['"' as int, gap] + rest)
    ensures var b := 1 + |head|;
            && |p| == b + 4 + |e| + |rest| && p[0] == '2' as int && p[1..b] == head
            && p[b] == '[' as int && p[b + 1] == '"' as int && p[b + 2..b + 2 + |e|] == e
            && p[b + 2 + |e|] == '"' as int && p[b + 3 + |e|] == gap && p[b + 4 + |e|..] == rest
  {
    var args := ['[' as int, '"' as int] + e + ['"' as int, gap] + rest;
    var b := 1 + |head|;
    assert p[b..] == args;
    assert args[2..2 + |e|] == e && args[4 + |e|..] == rest;
    assert p[b + 2..b + 2 + |e|] == p[b..][2..2 + |e|];
    assert p[b + 4 + |e|..] == p[b..][4 + |e|..];
  }

  lemma HeadPart(p: seq<byte>, head: seq<byte>, k: nat, e: seq<byte>, gap: byte, rest: seq<byte>)
    requires p == ['2' as int] + head + (['[' as int, '"' as int] + e + ['"' as int, gap] + rest) && IsSkipped(head, k)
    ensures BodyStart(p) == Some(1 + |head|)
  {
    PiecesAt(p, head, e, gap, rest);
    HeadIsSkipped(p, head, k);
  }

  lemma DataPart(p: seq<byte>, head: seq<byte>, e: seq<byte>, gap: byte, rest: seq<byte>, d: seq<byte>, data: seq<byte>,
                 dataCap: int)
    requires p == ['2' as int] + head + (['[' as int, '"' as int] + e + ['"' as int, gap] + rest)
    requires IsData(rest, d, data, dataCap)
    ensures DataAt(p, 5 + |head| + |e|, dataCap) == Some(data)
  {
    PiecesAt(p, head, e, gap, rest);
    IsDataIsRead(p, 5 + |head| + |e|, d, data, dataCap);
  }

  lemma DecodedFrom(p: seq<byte>, b: nat, eventCap: int, dataCap: int)
    requires |p| >= 5 && p[0] == SIO_EVENT && BodyStart(p) == Some(b)
    ensures DecodedEvent(p, eventCap, dataCap) == ArgumentsAt(p, b, eventCap, dataCap)
  {
  }

  lemma ReadingIsDecoded(p: seq<byte>, w: Pieces, event: seq<byte>, data: seq<byte>, eventCap: int, dataCap: int)
    requires IsReading(p, w, event, data, eventCap, dataCap)
    ensures DecodedEvent(p, eventCap, dataCap) == Some((event, data))
  {
    var b, close := 1 + |w.head|, 3 + |w.head| + |w.event|;
    PiecesAt(p, w.head, w.event, w.gap, w.rest);
    HeadPart(p, w.head, w.digits, w.event, w.gap, w.rest);
    DataPart(p, w.head, w.event, w.gap, w.rest, w.data, data, dataCap);
    ArgumentsAreDecoded(p, b, close, w.event, event, data, eventCap, dataCap);
    DecodedFrom(p, b, eventCap, dataCap);
  }

  lemma ArgumentsAreDecoded(p: seq<byte>, b: nat, close: nat, e: seq<byte>, event: seq<byte>, data: seq<byte>,
                            eventCap: int, dataCap: int)
    requires close == b + 2 + |e| && close + 1 < |p| && p[b] == OPEN_BRACKET && p[b + 1] == QUOTE && p[close] == QUOTE
    requires p[b + 2..close] == e && QUOTE !in e && e != [] && event == Heard(e) && |e| < eventCap
    requires DataAt(p, close + 2, dataCap) == Some(data)
    ensures ArgumentsAt(p, b, eventCap, dataCap) == Some((event, data))
  {
    ScanIsHeard(p, b + 2, e);
    ArgumentsAtIs(p, b, close, event, event, data, eventCap, dataCap);
  }

  lemma DecodedArguments(p: seq<byte>, b: nat, event: seq<byte>, data: seq<byte>, eventCap: int, dataCap: int)
    returns (close: nat)
    requires ArgumentsAt(p, b, eventCap, dataCap) == Some((event, data))
    ensures b + 2 < close && close + 1 < |p| && p[b] == OPEN_BRACKET && p[b + 1] == QUOTE && p[close] == QUOTE
    ensures QUOTE !in p[b + 2..close] && event == Heard(p[b + 2..close]) && |event| < eventCap
    ensures DataAt(p, close + 2, dataCap) == Some(data)
  {
    close := FirstIndex(p, QUOTE, b + 2);
    ScanIsHeard(p, b + 2, p[b + 2..close]);
  }

  lemma PiecesOf(p: seq<byte>, b: nat, close: nat)
    requires 1 <= b && b + 2 <= close && close + 2 <= |p| && p[0] == '2' as int
    requires p[b] == '[' as int && p[b + 1] == '"' as int && p[close] == '"' as int
    ensures p == ['2' as int] + p[1..b] +
                 (['[' as int, '"' as int] + p[b + 2..close] + ['"' as int, p[close + 1]] + p[close + 2..])
  {
    var args := ['[' as int, '"' as int] + p[b + 2..close] + ['"' as int, p[close + 1]] + p[close + 2..];
    assert p[b..close] == ['[' as int, '"' as int] + p[b + 2..close];
    assert p[close..] == ['"' as int, p[close + 1]] + p[close + 2..];
    assert args == p[b..];
  }

  lemma DecodedHasReading(p: seq<byte>, event: seq<byte>, data: seq<byte>, eventCap: int, dataCap: int) returns (w: Pieces)
    requires DecodedEvent(p, eventCap, dataCap) == Some((event, data))
    ensures IsReading(p, w, event, data, eventCap, dataCap)
  {
    var b := BodyStart(p).value;
    SkippedIsHead(p, b);
    var close := DecodedArguments(p, b, event, data, eventCap, dataCap);
    var d := ReadIsData(p, close + 2, data, dataCap);
    PiecesOf(p, b, close);
    w := Pieces(p[1..b], SkipDigits(p, 1) - 1, p[b + 2..close], p[close + 1], p[close + 2..], d);
  }

  /** A packet is decoded to an event and its data exactly when it is made of such pieces. */
  lemma DecodedIffReading(p: seq<byte>, event: seq<byte>, data: seq<byte>, eventCap: int, dataCap: int)
    ensures DecodedEvent(p, eventCap, dataCap) == Some((event, data)) <==>
            exists w :: IsReading(p, w, event, data, eventCap, dataCap)
  {
    if DecodedEvent(p, eventCap, dataCap) == Some((event, data)) {
      var w := DecodedHasReading(p, event, data, eventCap, dataCap);
    }
    if w :| IsReading(p, w, event, data, eventCap, dataCap) {
      ReadingIsDecoded(p, w, event, data, eventCap, dataCap);
    }
  }
}
