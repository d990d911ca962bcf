/** The Socket.IO event decoder, and exactly when it undoes the encoders. */
module EventDecoder {
  import opened Append
  import opened Bytes
  import opened Decimal
  import opened Options
  import opened SocketIo

  // ----- What the decoder computes ---------------------------------------------------------

  function SkipDigits(p: seq<byte>, i: nat): (j: nat)
    requires i <= |p|
    ensures i <= j <= |p|
    ensures forall k | i <= k < j :: IsDigit(p[k])
    ensures j < |p| ==> !IsDigit(p[j])
    decreases |p| - i
  {
    if i < |p| && IsDigit(p[i]) then SkipDigits(p, i + 1) else i
  }

  /** Where the argument array starts: after the type, the acknowledgement id and the namespace. */
  function BodyStart(p: seq<byte>): Option<nat>
    requires p != []
  {
    var i := SkipDigits(p, 1);
    if i < |p| && p[i] == SLASH then
      var comma := FirstIndex(p, COMMA, i);
      if comma >= |p| then None else Some(comma + 1)
    else Some(i)
  }

  /** The scan emits one byte per position: a backslash stands for the byte after it, which is then read again. */
  function Emitted(p: seq<byte>, k: nat): byte
    requires k < |p|
  {
    if p[k] == BACKSLASH && k + 1 < |p| then p[k + 1] else p[k]
  }

  function Scanned(p: seq<byte>, from: nat, to: nat): (s: seq<byte>)
    requires from <= to <= |p|
    ensures |s| == to - from
    ensures forall k | from <= k < to :: s[k - from] == Emitted(p, k)
  {
    seq<byte>(to - from, k requires 0 <= k < to - from => Emitted(p, from + k))
  }

  function DataAt(p: seq<byte>, i: nat, dataCap: int): Option<seq<byte>> {
    if i >= |p| then None
    else if p[i] == LOWER_N && i + 3 < |p| && p[i + 1] == 117 then Some([])
    else if p[i] != QUOTE then None
    else
      var close := FirstIndex(p, QUOTE, i + 1);
      var data := Scanned(p, i + 1, close);
      if close >= |p| || (data != [] && |data| > dataCap) then None else Some(data)
  }

  function DecodedEvent(p: seq<byte>, eventCap: int, dataCap: int): Option<(seq<byte>, seq<byte>)> {
    if |p| < 5 || p[0] != SIO_EVENT || BodyStart(p) == None then None
    else ArgumentsAt(p, BodyStart(p).value, eventCap, dataCap)
  }

  function ArgumentsAt(p: seq<byte>, i: nat, eventCap: int, dataCap: int): Option<(seq<byte>, seq<byte>)> {
    if i + 3 >= |p| || p[i] != OPEN_BRACKET || p[i + 1] != QUOTE then None
    else
      var close := FirstIndex(p, QUOTE, i + 2);
      var event := Scanned(p, i + 2, close);
      if close >= |p| || event == [] || |event| >= eventCap then None
      else match DataAt(p, close + 2, dataCap) {
        case None => None
        case Some(data) => Some((event, data))
      }
  }

  method ScanQuoted(p: seq<byte>, len: int, start: int, out: array<byte>, cap: int, reserve: int)
    returns (ok: bool, i: int, n: int)
    requires 0 <= start <= len == |p| && cap <= out.Length && 0 <= reserve
    modifies out
    ensures var close := FirstIndex(p, QUOTE, start);
            && (ok <==> close == start || close - start + reserve <= cap)
            && (ok ==> i == close && n == close - start)
            && (ok ==> WrittenAt(out[..], old(out[..]), 0, Scanned(p, start, close)))
    ensures OnlyBetween(out[..], old(out[..]), 0, cap)
  {
    i, n := start, 0;
    ghost var close := FirstIndex(p, QUOTE, start);
    while i < len
      invariant start <= i <= close && n == i - start
      invariant n == 0 || n + reserve <= cap
      invariant WrittenAt(out[..], old(out[..]), 0, Scanned(p, start, i))
    {
      var c := p[i];
      if c == QUOTE {
        break;
      }
      if c == BACKSLASH && i + 1 < len {
        if n + reserve >= cap {
          return false, i, n;
        }
        i := i + 1;
        out[n] := p[i];
        n := n + 1;
        continue;
      }
      if n + reserve >= cap {
        return false, i, n;
      }
      out[n] := c;
      n := n + 1;
      i := i + 1;
    }
    return true, i, n;
  }

  method FindBody(p: seq<byte>, len: int) returns (ok: bool, i: int)
    requires 1 <= len == |p|
    ensures ok <==> BodyStart(p).Some?
    ensures ok ==> i == BodyStart(p).value
  {
    i := 1;
    while i < len && p[i] >= ZERO && p[i] <= NINE
      invariant 1 <= i <= len && SkipDigits(p, i) == SkipDigits(p, 1)
    {
      i := i + 1;
    }
    if i < len && p[i] == SLASH {
      ghost var slash := i;
      while i < len && p[i] != COMMA
        invariant slash <= i <= len && FirstIndex(p, COMMA, i) == FirstIndex(p, COMMA, slash)
      {
        i := i + 1;
      }
      if i >= len {
        return false, i;
      }
      i := i + 1;
    }
    return true, i;
  }

  method DecodeData(p: seq<byte>, len: int, start: int, outData: array<byte>, dataCap: int)
    returns (ok: bool, dataLen: int)
    requires 0 <= start && len == |p| && dataCap <= outData.Length
    modifies outData
    ensures ok <==> DataAt(p, start, dataCap).Some?
    ensures ok ==>
              && dataLen == |DataAt(p, start, dataCap).value|
              && WrittenAt(outData[..], old(outData[..]), 0, DataAt(p, start, dataCap).value)
    ensures OnlyBetween(outData[..], old(outData[..]), 0, dataCap)
  {
    var i := start;
    if i >= len {
      return false, 0;
    }
    if p[i] == LOWER_N && i + 3 < len && p[i + 1] == 117 {
      return true, 0;
    }
    if p[i] != QUOTE {
      return false, 0;
    }
    ok, i, dataLen := ScanQuoted(p, len, i + 1, outData, dataCap, 0);
    if !ok {
      return false, dataLen;
    }
    if i >= len {
      return false, dataLen;
    }
    return true, dataLen;
  }

  method DecodeArguments(p: seq<byte>, len: int, start: int, outEvent: array<byte>, eventCap: int,
                         outData: array<byte>, dataCap: int)
    returns (ok: bool, dataLen: int)
    requires 0 <= start && len == |p|
    requires eventCap <= outEvent.Length && dataCap <= outData.Length && outEvent != outData
    modifies outEvent, outData
    ensures ok <==> ArgumentsAt(p, start, eventCap, dataCap).Some?
    ensures ok ==>
              var (event, data) := ArgumentsAt(p, start, eventCap, dataCap).value;
              && dataLen == |data|
              && WrittenAt(outEvent[..], old(outEvent[..]), 0, event + [0])
              && WrittenAt(outData[..], old(outData[..]), 0, data)
    ensures OnlyBetween(outEvent[..], old(outEvent[..]), 0, eventCap)
    ensures OnlyBetween(outData[..], old(outData[..]), 0, dataCap)
  {
    dataLen := 0;
    var i := start;
    if i + 3 >= len || p[i] != OPEN_BRACKET || p[i + 1] != QUOTE {
      return false, dataLen;
    }
    ghost var was := outEvent[..];
    ghost var event := Scanned(p, i + 2, FirstIndex(p, QUOTE, i + 2));
    var eventLen;
    ok, i, eventLen := ScanQuoted(p, len, i + 2, outEvent, eventCap, 1);
    if !ok {
      return false, dataLen;
    }
    if i >= len || eventLen <= 0 {
      return false, dataLen;
    }
    ghost var named := outEvent[..];
    outEvent[eventLen] := 0;
    assert WrittenAt(outEvent[..], named, |event|, [0]);
    WrittenThen(outEvent[..], named, was, 0, event, [0]);
    ok, dataLen := DecodeData(p, len, i + 2, outData, dataCap);
  }

  /** The event is written with a NUL behind it, the data without one; whatever fails, only the two capacities are touched. */
  method DecodeEvent(packet: Input, len: int, outEvent: array?<byte>, eventCap: int, outData: array?<byte>, dataCap: int,
                     outDataLen: Cell?)
    returns (status: int)
    requires packet.Some? ==> len <= |packet.value|
    requires outEvent != null ==> eventCap <= outEvent.Length
    requires outData != null ==> dataCap <= outData.Length
    requires outEvent != null ==> outEvent != outData
    modifies outEvent, outData, outDataLen
    ensures status == 0 || status == -1
    ensures status == 0 <==>
            && outEvent != null && outData != null && outDataLen != null
            && DecodedEvent(Argument(packet, len), eventCap, dataCap).Some?
    ensures status == 0 ==>
              var (event, data) := DecodedEvent(Argument(packet, len), eventCap, dataCap).value;
              && outDataLen.value == |data|
              && WrittenAt(outEvent[..], old(outEvent[..]), 0, event + [0])
              && WrittenAt(outData[..], old(outData[..]), 0, data)
    ensures status == -1 && outDataLen != null ==> outDataLen.value == old(outDataLen.value)
    ensures outEvent != null ==> OnlyBetween(outEvent[..], old(outEvent[..]), 0, eventCap)
    ensures outData != null ==> OnlyBetween(outData[..], old(outData[..]), 0, dataCap)
  {
    if packet == None || len < 5 || outEvent == null || outData == null || outDataLen == null {
      return -1;
    }
    var p := packet.value[..len];
    if p[0] != SIO_EVENT {
      return -1;
    }
    var ok, i := FindBody(p, len);
    if !ok {
      return -1;
    }
    var dataLen;
    ok, dataLen := DecodeArguments(p, len, i, outEvent, eventCap, outData, dataCap);
    if !ok {
      return -1;
    }
    outDataLen.value := dataLen;
    return 0;
  }

  // ----- Exactly when a quoted string survives the scan ------------------------------------

  ghost predicate Clean(s: seq<byte>) {
    QUOTE !in s && BACKSLASH !in s
  }

  /** Clean but for a quote in last position. */
  ghost predicate EndsInItsOnlyQuote(s: seq<byte>) {
    s != [] && s[|s| - 1] == QUOTE && Clean(s[..|s| - 1])
  }

  /** How the escaped form of a string without quotes looks. */
  lemma {:induction false} EscapedWithoutQuotes(s: seq<byte>)
    requires QUOTE !in s
    ensures QUOTE !in Escaped(s)
    ensures |Escaped(s)| >= |s|
    ensures |Escaped(s)| == |s| <==> BACKSLASH !in s
    ensures BACKSLASH !in s ==> Escaped(s) == s
  {
    if s != [] {
      EscapedWithoutQuotes(s[1..]);
      assert s == [s[0]] + s[1..];
    }
  }

  /** The bytes of `p` between `from` and `to`, none of them a quote, followed by a quote. */
  lemma ScanStops(p: seq<byte>, from: nat, to: nat)
    requires from <= to < |p| && p[to] == QUOTE && QUOTE !in p[from..to]
    ensures FirstIndex(p, QUOTE, from) == to
    ensures forall k | from <= k < to && Emitted(p, k) == QUOTE :: k == to - 1 && p[k] == BACKSLASH
  {
    FirstIndexIs(p, QUOTE, from, to);
    forall k | from <= k < to
      ensures p[k] != QUOTE
    {
      assert p[k] == p[from..to][k - from];
    }
  }

  lemma ScanOfQuoteFree(p: seq<byte>, from: nat, s: seq<byte>)
    requires QUOTE !in s
    requires from + |Escaped(s)| < |p|
    requires p[from..from + |Escaped(s)|] == Escaped(s) && p[from + |Escaped(s)|] == QUOTE
    ensures var close := FirstIndex(p, QUOTE, from);
            && close == from + |Escaped(s)|
            && (Scanned(p, from, close) == s <==> Clean(s))
  {
    EscapedWithoutQuotes(s);
    var close := from + |Escaped(s)|;
    ScanStops(p, from, close);
    if Clean(s) {
      ScanOfClean(p, from, s);
      assert Scanned(p, from, close) == s;
    }
  }

  lemma OnlyLastIsQuote(got: seq<byte>, u: seq<byte>, v: seq<byte>)
    requires got != [] && got[|got| - 1] == QUOTE && |u| < |got|
    requires forall k | 0 <= k < |got| - 1 :: got[k] != QUOTE
    ensures got == u + [QUOTE] + v ==> v == [] && |got| == |u| + 1
  {
    if got == u + [QUOTE] + v {
      assert got[|u|] == QUOTE;
    }
  }

  /** The scan of an escaped text up to its first quote, which a backslash precedes. */
  ghost predicate StopsAtEscapedQuote(p: seq<byte>, from: nat, stop: nat) {
    from <= stop && stop + 1 < |p| && QUOTE !in p[from..stop] && p[stop] == BACKSLASH && p[stop + 1] == QUOTE
  }

  lemma ScanToEscapedQuote(p: seq<byte>, from: nat, stop: nat)
    requires StopsAtEscapedQuote(p, from, stop)
    ensures FirstIndex(p, QUOTE, from) == stop + 1
    ensures var got := Scanned(p, from, stop + 1);
            got[stop - from] == QUOTE && forall k | 0 <= k < stop - from :: got[k] != QUOTE
  {
    assert QUOTE !in p[from..stop + 1] by {
      assert p[from..stop + 1] == p[from..stop] + [BACKSLASH];
    }
    ScanStops(p, from, stop + 1);
    var got := Scanned(p, from, stop + 1);
    forall k | 0 <= k < stop - from
      ensures got[k] != QUOTE
    {
      assert got[k] == Emitted(p, from + k);
    }
  }

  lemma ScanOfQuoted(p: seq<byte>, from: nat, u: seq<byte>, w: seq<byte>, v: seq<byte>)
    requires |w| >= |u| && (|w| == |u| <==> BACKSLASH !in u) && (BACKSLASH !in u ==> w == u)
    requires StopsAtEscapedQuote(p, from, from + |w|) && p[from..from + |w|] == w
    ensures var close := FirstIndex(p, QUOTE, from);
            && close == from + |w| + 1
            && (Scanned(p, from, close) == u + [QUOTE] + v <==> v == [] && BACKSLASH !in u)
  {
    var stop := from + |w|;
    ScanToEscapedQuote(p, from, stop);
    var got := Scanned(p, from, stop + 1);
    OnlyLastIsQuote(got, u, v);
    if v == [] && BACKSLASH !in u {
      ScanOfClean(p, from, u);
      SplitLast(got, u);
      assert u + [QUOTE] + v == u + [QUOTE];
    }
  }

  lemma SplitLast(got: seq<byte>, u: seq<byte>)
    requires |got| == |u| + 1 && got[|u|] == QUOTE
    requires forall k | 0 <= k < |u| :: got[k] == u[k]
    ensures got == u + [QUOTE]
  {
  }

  lemma ScanOfClean(p: seq<byte>, from: nat, u: seq<byte>)
    requires BACKSLASH !in u
    requires from + |u| <= |p| && p[from..from + |u|] == u
    ensures forall k | 0 <= k < |u| :: Emitted(p, from + k) == u[k]
  {
    forall k | 0 <= k < |u|
      ensures p[from + k] == u[k]
    {
      assert p[from + k] == p[from..from + |u|][k];
    }
  }

  /** A quoted string at position `i`. */
  ghost predicate QuotedAt(p: seq<byte>, i: nat, s: seq<byte>) {
    var stop := i + 1 + |Escaped(s)|;
    stop < |p| && p[i] == QUOTE && p[i + 1..stop] == Escaped(s) && p[stop] == QUOTE
  }

  lemma QuotedInside(p: seq<byte>, before: seq<byte>, s: seq<byte>, after: seq<byte>)
    requires p == before + Quoted(s) + after
    ensures QuotedAt(p, |before|, s)
    ensures p[|before| + |Quoted(s)|..] == after
  {
  }

  lemma EscapedAround(u: seq<byte>, v: seq<byte>)
    ensures Escaped(u + [QUOTE] + v) == Escaped(u) + [BACKSLASH, QUOTE] + Escaped(v)
  {
    assert u + [QUOTE] + v == u + ([QUOTE] + v);
    EscapedConcat(u, [QUOTE] + v);
    assert ([QUOTE] + v)[1..] == v;
  }

  lemma InsideAt(p: seq<byte>, from: nat, w: seq<byte>, x: seq<byte>)
    requires from + |w| + 2 + |x| <= |p|
    requires p[from..from + |w| + 2 + |x|] == w + [BACKSLASH, QUOTE] + x
    ensures p[from..from + |w|] == w && p[from + |w|] == BACKSLASH && p[from + |w| + 1] == QUOTE
  {
    var inside := p[from..from + |w| + 2 + |x|];
    assert inside[|w|] == p[from + |w|] && inside[|w| + 1] == p[from + |w| + 1];
    assert inside[..|w|] == p[from..from + |w|];
  }

  lemma ScanWithQuote(p: seq<byte>, i: nat, u: seq<byte>, v: seq<byte>)
    requires QUOTE !in u && QuotedAt(p, i, u + [QUOTE] + v)
    ensures var close := FirstIndex(p, QUOTE, i + 1);
            && close == i + 1 + |Escaped(u)| + 1
            && (Scanned(p, i + 1, close) == u + [QUOTE] + v <==> v == [] && BACKSLASH !in u)
    ensures |Escaped(u + [QUOTE] + v)| == |Escaped(u)| + 2 + |Escaped(v)|
  {
    EscapedAround(u, v);
    InsideAt(p, i + 1, Escaped(u), Escaped(v));
    EscapedWithoutQuotes(u);
    ScanOfQuoted(p, i + 1, u, Escaped(u), v);
  }

  lemma SplitAtFirstQuote(s: seq<byte>, u: seq<byte>, v: seq<byte>)
    requires s == u + [QUOTE] + v && QUOTE !in u
    ensures EndsInItsOnlyQuote(s) <==> v == [] && BACKSLASH !in u
    ensures !Clean(s)
  {
    assert s[|u|] == QUOTE;
    assert |u| < |s| - 1 ==> s[..|s| - 1][|u|] == QUOTE;
    if v == [] {
      assert s[..|s| - 1] == u;
    }
  }

  /** The scan gives back a quoted string exactly when it is clean or ends in its only quote. */
  lemma ScanExact(p: seq<byte>, i: nat, s: seq<byte>)
    requires QuotedAt(p, i, s)
    ensures var close := FirstIndex(p, QUOTE, i + 1);
            && close < |p|
            && (Scanned(p, i + 1, close) == s <==> Clean(s) || EndsInItsOnlyQuote(s))
            && (Clean(s) ==> Escaped(s) == s && close == i + 1 + |s|)
            && (EndsInItsOnlyQuote(s) ==> close == i + |Escaped(s)|)
  {
    if QUOTE !in s {
      ScanOfQuoteFree(p, i + 1, s);
      EscapedWithoutQuotes(s);
    } else {
      var q := FirstIndex(s, QUOTE, 0);
      var u, v := s[..q], s[q + 1..];
      assert s == u + [QUOTE] + v;
      assert QUOTE !in u by {
        assert s[0..q] == u;
      }
      ScanWithQuote(p, i, u, v);
      SplitAtFirstQuote(s, u, v);
      assert v == [] ==> Escaped(v) == [];
    }
  }

  // ----- Exactly when an event packet survives the codec -----------------------------------

  /** What an encoder puts between the type and the arguments, but for namespaces that hold a comma. */
  ghost predicate IsHead(head: seq<byte>) {
    || head == []
    || (forall k | 0 <= k < |head| :: IsDigit(head[k]))
    || (|head| >= 2 && head[0] == SLASH && FirstIndex(head, COMMA, 0) == |head| - 1)
  }

  lemma BodyStartsAfterHead(head: seq<byte>, event: seq<byte>, data: seq<byte>)
    requires IsHead(head)
    ensures BodyStart(EventText(head, event, data)) == Some(1 + |head|)
  {
    var p := EventText(head, event, data);
    assert p[1 + |head|] == OPEN_BRACKET && p[1..1 + |head|] == head;
    BodyStartsAt(p, head);
  }

  lemma BodyStartsAt(p: seq<byte>, head: seq<byte>)
    requires 1 + |head| < |p| && p[1..1 + |head|] == head && p[1 + |head|] == OPEN_BRACKET && IsHead(head)
    ensures BodyStart(p) == Some(1 + |head|)
  {
    if head != [] && head[0] == SLASH {
      SlashHeadEnds(p, head);
    } else {
      DigitHeadEnds(p, head);
    }
  }

  lemma SlashHeadEnds(p: seq<byte>, head: seq<byte>)
    requires |head| >= 2 && |head| < |p| && p[1..1 + |head|] == head
    requires head[0] == SLASH && FirstIndex(head, COMMA, 0) == |head| - 1
    ensures SkipDigits(p, 1) == 1 && p[1] == SLASH && FirstIndex(p, COMMA, 1) == |head|
  {
    var comma := |head|;
    assert p[1] == head[0] && p[comma] == head[comma - 1];
    assert p[1..comma] == head[0..comma - 1];
    FirstIndexIs(p, COMMA, 1, comma);
  }

  lemma DigitHeadEnds(p: seq<byte>, head: seq<byte>)
    requires 1 + |head| < |p| && p[1..1 + |head|] == head && !IsDigit(p[1 + |head|])
    requires forall k | 0 <= k < |head| :: IsDigit(head[k])
    ensures SkipDigits(p, 1) == 1 + |head|
  {
    assert forall k | 1 <= k <= |head| :: p[k] == head[k - 1];
  }

  ghost predicate DataTextAt(p: seq<byte>, i: nat, data: seq<byte>) {
    if data == [] then i + 3 < |p| && p[i] == LOWER_N && p[i + 1] == 117 else QuotedAt(p, i, data)
  }

  lemma DataDecodes(p: seq<byte>, i: nat, data: seq<byte>, dataCap: int)
    requires DataTextAt(p, i, data)
    ensures DataAt(p, i, dataCap) == Some(data) <==>
            (Clean(data) || EndsInItsOnlyQuote(data)) && (data == [] || |data| <= dataCap)
  {
    if data != [] {
      ScanExact(p, i, data);
    }
  }

  lemma ArgumentsDecode(p: seq<byte>, i: nat, event: seq<byte>, data: seq<byte>, eventCap: int, dataCap: int)
    requires ArgumentsTextAt(p, i, event, data) && event != []
    ensures ArgumentsAt(p, i, eventCap, dataCap) == Some((event, data)) <==>
            && Clean(event) && |event| < eventCap
            && (Clean(data) || EndsInItsOnlyQuote(data)) && (data == [] || |data| <= dataCap)
  {
    var close, got := EventScan(p, i, event, data);
    if got == event && Clean(event) {
      DataDecodes(p, close + 2, data, dataCap);
    } else if got == event {
      assert DataAt(p, close + 2, dataCap) == None;
    }
  }

  lemma EventScan(p: seq<byte>, i: nat, event: seq<byte>, data: seq<byte>) returns (close: nat, got: seq<byte>)
    requires ArgumentsTextAt(p, i, event, data) && event != []
    ensures close == FirstIndex(p, QUOTE, i + 2) < |p| && got == Scanned(p, i + 2, close)
    ensures Clean(event) ==> got == event && DataTextAt(p, close + 2, data)
    ensures got == event && !Clean(event) ==> close + 2 < |p| && p[close + 2] == COMMA
  {
    ScanExact(p, i + 1, event);
    close := FirstIndex(p, QUOTE, i + 2);
    got := Scanned(p, i + 2, close);
  }

  lemma DataTextInside(p: seq<byte>, before: seq<byte>, data: seq<byte>, after: seq<byte>)
    requires p == before + DataText(data) + after && after != []
    ensures DataTextAt(p, |before|, data)
  {
    if data == [] {
      assert p[|before|] == NULL_TEXT[0] && p[|before| + 1] == NULL_TEXT[1];
    } else {
      QuotedInside(p, before, data, after);
    }
  }

  ghost predicate ArgumentsTextAt(p: seq<byte>, i: nat, event: seq<byte>, data: seq<byte>) {
    var k := i + 3 + |Escaped(event)|;
    && i + 1 < k < |p| && p[i] == OPEN_BRACKET && QuotedAt(p, i + 1, event)
    && p[k] == COMMA && DataTextAt(p, k + 1, data)
  }

  lemma EventInside(p: seq<byte>, before: seq<byte>, event: seq<byte>, d: seq<byte>)
    requires p == before + ([OPEN_BRACKET] + Quoted(event) + [COMMA] + d + [CLOSE_BRACKET])
    ensures p[|before|] == OPEN_BRACKET && QuotedAt(p, |before| + 1, event)
    ensures p[|before| + 3 + |Escaped(event)|] == COMMA
  {
    Regroup(before, Quoted(event), d);
    NameInside(p, before + [OPEN_BRACKET], event, d + [CLOSE_BRACKET]);
  }

  lemma DataInside(p: seq<byte>, before: seq<byte>, q: seq<byte>, data: seq<byte>)
    requires p == before + ([OPEN_BRACKET] + q + [COMMA] + DataText(data) + [CLOSE_BRACKET])
    ensures DataTextAt(p, |before| + |q| + 2, data)
  {
    var start := before + [OPEN_BRACKET] + q + [COMMA];
    Regroup(before, q, DataText(data));
    DataTextInside(p, start, data, [CLOSE_BRACKET]);
    assert |start| == |before| + |q| + 2;
  }

  /** The arguments of an event packet, by position. */
  lemma ArgumentsInside(p: seq<byte>, before: seq<byte>, event: seq<byte>, data: seq<byte>)
    requires p == before + ArgumentsText(event, data)
    ensures ArgumentsTextAt(p, |before|, event, data)
  {
    EventInside(p, before, event, DataText(data));
    DataInside(p, before, Quoted(event), data);
  }

  lemma NameInside(p: seq<byte>, before: seq<byte>, event: seq<byte>, rest: seq<byte>)
    requires before != [] && p == before + Quoted(event) + ([COMMA] + rest)
    ensures p[|before| - 1] == before[|before| - 1]
    ensures QuotedAt(p, |before|, event)
    ensures p[|before| + 2 + |Escaped(event)|] == COMMA
  {
    QuotedInside(p, before, event, [COMMA] + rest);
    assert p[|before| + |Quoted(event)|] == ([COMMA] + rest)[0];
  }

  lemma Regroup(a: seq<byte>, q: seq<byte>, d: seq<byte>)
    ensures var p := a + ([OPEN_BRACKET] + q + [COMMA] + d + [CLOSE_BRACKET]);
            && p == a + [OPEN_BRACKET] + q + ([COMMA] + (d + [CLOSE_BRACKET]))
            && p == (a + [OPEN_BRACKET] + q + [COMMA]) + d + [CLOSE_BRACKET]
  {
  }

  lemma EscapedNotShorter(s: seq<byte>)
    ensures |Escaped(s)| >= |s|
  {
  }

  /**
   * Decoding gives back the event and the data exactly when the event has neither quote nor
   * backslash, the data has none but perhaps a quote in last position, and both fit; the decoder
   * needs one more byte of capacity than the event has.
   */
  lemma EventRoundTripIff(head: seq<byte>, event: seq<byte>, data: seq<byte>, eventCap: int, dataCap: int)
    requires IsHead(head) && event != []
    ensures DecodedEvent(EventText(head, event, data), eventCap, dataCap) == Some((event, data)) <==>
            && Clean(event) && |event| < eventCap
            && (Clean(data) || EndsInItsOnlyQuote(data)) && (data == [] || |data| <= dataCap)
  {
    var p := EventText(head, event, data);
    BodyStartsAfterHead(head, event, data);
    ArgumentsInside(p, [SIO_EVENT] + head, event, data);
    EscapedNotShorter(event);
    ArgumentsDecode(p, 1 + |head|, event, data, eventCap, dataCap);
    assert DecodedEvent(p, eventCap, dataCap) == ArgumentsAt(p, 1 + |head|, eventCap, dataCap);
  }

  lemma AckIsHead(ackId: nat)
    ensures IsHead(Numeral(ackId))
  {
    NumeralReadsBack(ackId);
  }

  /** The acknowledgement id stands in the packet as the digits after the type. */
  lemma AckIdReadsBack(ackId: nat, event: seq<byte>, data: seq<byte>)
    ensures var p := EventText(Numeral(ackId), event, data);
            Value(p[1..SkipDigits(p, 1)]) == ackId
  {
    var p := EventText(Numeral(ackId), event, data);
    AckIsHead(ackId);
    BodyStartsAfterHead(Numeral(ackId), event, data);
    NumeralReadsBack(ackId);
    assert p[1..1 + |Numeral(ackId)|] == Numeral(ackId);
  }
}
