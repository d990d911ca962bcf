/** The Engine.IO packet codec and the Socket.IO event codec in its three variants. */
module SocketIo {
  import opened Append
  import opened Bytes
  import opened Decimal
  import opened Options

  const EIO_MESSAGE := 4
  const SIO_EVENT: byte := 50
  const NULL_TEXT: seq<byte> := [110, 117, 108, 108]
  const INNER_CAP := 512

  // ----- Engine.IO packets ---------------------------------------------------------------

  function PacketText(kind: int, payload: seq<byte>): seq<byte>
    requires 0 <= kind <= 9
  {
    [ZERO + kind] + payload
  }

  function ParsePacket(packet: seq<byte>): Option<(int, seq<byte>)> {
    if packet == [] || !IsDigit(packet[0]) then None else Some((packet[0] - ZERO, packet[1..]))
  }

  /** Encoding and decoding are mutual inverses for all ten packet types; the type is a decimal digit. */
  lemma PacketRoundTrip(kind: int, payload: seq<byte>, packet: seq<byte>)
    ensures 0 <= kind <= 9 ==> PacketText(kind, payload)[0] == '0' as int + kind
    ensures 0 <= kind <= 9 ==> ParsePacket(PacketText(kind, payload)) == Some((kind, payload))
    ensures ParsePacket(packet).Some? ==>
              && 0 <= ParsePacket(packet).value.0 <= 9
              && PacketText(ParsePacket(packet).value.0, ParsePacket(packet).value.1) == packet
  {
  }

  method EncodePacket(kind: int, payload: Input, payloadLen: int, out: array?<byte>, outCap: int) returns (n: int)
    requires out != null ==> outCap <= out.Length
    requires payload.Some? ==> payloadLen <= |payload.value|
    modifies out
    ensures n == -1 || n == 1 + payloadLen
    ensures n != -1 <==>
            && out != null && 0 <= kind <= 9 && payloadLen >= 0
            && (payloadLen > 0 ==> payload.Some?) && 1 + payloadLen <= outCap
    ensures n != -1 ==> WrittenAt(out[..], old(out[..]), 0, PacketText(kind, Argument(payload, payloadLen)))
    ensures n == -1 && out != null ==> out[..] == old(out[..])
  {
    if out == null || outCap < 1 {
      return -1;
    }
    if kind < 0 || kind > 9 {
      return -1;
    }
    if payloadLen < 0 {
      return -1;
    }
    if payloadLen > 0 && payload == None {
      return -1;
    }
    if 1 + payloadLen > outCap {
      return -1;
    }
    out[0] := ZERO + kind;
    n := 1;
    if payloadLen > 0 {
      Memcpy(out, 1, payload.value, payloadLen);
      n := n + payloadLen;
    }
  }

  method DecodePacket(buf: Input, len: int, outType: Cell?, outPayload: array?<byte>, outCap: int, outLen: Cell?)
    returns (status: int)
    requires outPayload != null ==> outCap <= outPayload.Length
    requires buf.Some? ==> len <= |buf.value|
    modifies outType, outPayload, outLen
    ensures status == 0 || status == -1
    ensures status == 0 <==>
            && outType != null && outLen != null
            && ParsePacket(Argument(buf, len)).Some?
            && (len > 1 ==> outPayload != null && len - 1 <= outCap)
    ensures status == 0 ==>
              var (kind, p) := ParsePacket(Argument(buf, len)).value;
              && (outType != outLen ==> outType.value == kind) && outLen.value == |p|
              && (outPayload != null ==> WrittenAt(outPayload[..], old(outPayload[..]), 0, p))
    ensures status == -1 ==>
              && (outType != null ==> outType.value == old(outType.value))
              && (outLen != null ==> outLen.value == old(outLen.value))
              && (outPayload != null ==> outPayload[..] == old(outPayload[..]))
  {
    if buf == None || len <= 0 || outType == null || outLen == null {
      return -1;
    }
    if buf.value[0] < ZERO || buf.value[0] > NINE {
      return -1;
    }
    var kind := buf.value[0] - ZERO;
    var payloadLen := len - 1;
    if payloadLen > 0 {
      if outPayload == null {
        return -1;
      }
      if payloadLen > outCap {
        return -1;
      }
      Memcpy(outPayload, 0, buf.value[1..], payloadLen);
      assert buf.value[1..][..payloadLen] == Argument(buf, len)[1..];
    }
    outType.value := kind;
    outLen.value := payloadLen;
    return 0;
  }

  // ----- Encoding events -----------------------------------------------------------------

  function DataText(data: seq<byte>): seq<byte> {
    if data == [] then NULL_TEXT else Quoted(data)
  }

  /** `["event","data"]`, or `["event",null]` when there is no data. */
  function ArgumentsText(event: seq<byte>, data: seq<byte>): seq<byte> {
    [OPEN_BRACKET] + Quoted(event) + [COMMA] + DataText(data) + [CLOSE_BRACKET]
  }

  /** A Socket.IO event packet whose `head` carries the acknowledgement id or the namespace. */
  function EventText(head: seq<byte>, event: seq<byte>, data: seq<byte>): seq<byte> {
    [SIO_EVENT] + head + ArgumentsText(event, data)
  }

  /** The result of an encoder; `Trapped` is the abort of an index outside the 512-byte scratch array. */
  datatype Outcome = Length(n: int) | Rejected | Trapped

  predicate ValidArguments(event: Input, eventLen: int, data: Input, dataLen: int) {
    eventLen > 0 && event.Some? && dataLen >= 0 && (dataLen > 0 ==> data.Some?)
  }

  /** Appends one byte to the scratch array. */
  method PutInner(inner: array<byte>, off: int, b: byte)
    requires 0 <= off < inner.Length
    modifies inner
    ensures inner[..off + 1] == old(inner[..off]) + [b]
  {
    inner[off] := b;
  }

  method PutJsonString(inner: array<byte>, off: int, s: Input, slen: int) returns (ok: bool, end: int)
    requires inner.Length == INNER_CAP && 0 <= off
    requires s.Some? && slen <= |s.value|
    modifies inner
    ensures var text := Quoted(Argument(s, slen));
            && (ok <==> off + |text| <= INNER_CAP)
            && (ok ==> end == off + |text| && inner[..end] == old(inner[..off]) + text)
  {
    ghost var before := inner[..];
    var status;
    status, end := AppendJsonString(inner, INNER_CAP, off, s, slen);
    ok := status == 0;
    if ok {
      WrittenPrefix(inner[..], before, off, Quoted(Argument(s, slen)));
      assert inner[..end] == inner[..][..end];
    }
  }

  method PutData(inner: array<byte>, off: int, data: Input, dataLen: int) returns (ok: bool, end: int)
    requires inner.Length == INNER_CAP && 0 <= off
    requires data.Some? ==> dataLen <= |data.value|
    requires dataLen >= 0 && (dataLen > 0 ==> data.Some?)
    modifies inner
    ensures var text := DataText(Argument(data, dataLen));
            && (ok <==> off + |text| <= INNER_CAP)
            && (ok ==> end == off + |text| && inner[..end] == old(inner[..off]) + text)
  {
    if dataLen == 0 {
      ghost var before := inner[..];
      var status;
      status, end := AppendBytes(inner, INNER_CAP, off, Some(NULL_TEXT), 4);
      assert Argument(Some(NULL_TEXT), 4) == NULL_TEXT;
      ok := status == 0;
      if ok {
        WrittenPrefix(inner[..], before, off, NULL_TEXT);
        assert inner[..end] == inner[..][..end];
      }
    } else {
      ok, end := PutJsonString(inner, off, data, dataLen);
    }
  }

  /** The part the three encoders share, from the opening bracket to the closing one. */
  method AppendArguments(inner: array<byte>, off: int, event: Input, eventLen: int, data: Input, dataLen: int)
    returns (ok: bool, end: int)
    requires inner.Length == INNER_CAP && 0 <= off < INNER_CAP
    requires event.Some? ==> eventLen <= |event.value|
    requires data.Some? ==> dataLen <= |data.value|
    requires ValidArguments(event, eventLen, data, dataLen)
    modifies inner
    ensures var text := ArgumentsText(Argument(event, eventLen), Argument(data, dataLen));
            && (ok <==> off + |text| <= INNER_CAP)
            && (ok ==> end == off + |text| && inner[..end] == old(inner[..off]) + text)
  {
    ghost var before, e, d := inner[..off], Argument(event, eventLen), Argument(data, dataLen);
    ghost var quoted, text := Quoted(e), DataText(d);
    Flatten(before, quoted, text);
    assert |ArgumentsText(e, d)| == |quoted| + |text| + 3;
    PutInner(inner, off, OPEN_BRACKET);
    ok, end := PutJsonString(inner, off + 1, event, eventLen);
    if !ok || end + 1 >= INNER_CAP {
      return false, end;
    }
    assert inner[..end] == before + [OPEN_BRACKET] + quoted;
    PutInner(inner, end, COMMA);
    ok, end := PutData(inner, end + 1, data, dataLen);
    if !ok || end >= INNER_CAP {
      return false, end;
    }
    assert inner[..end] == before + [OPEN_BRACKET] + quoted + [COMMA] + text;
    PutInner(inner, end, CLOSE_BRACKET);
    end := end + 1;
  }

  lemma Flatten(a: seq<byte>, q: seq<byte>, d: seq<byte>)
    ensures a + [OPEN_BRACKET] + q + [COMMA] + d + [CLOSE_BRACKET] ==
            a + ([OPEN_BRACKET] + q + [COMMA] + d + [CLOSE_BRACKET])
  {
  }

  /** When an event packet is produced, and what it is. */
  ghost predicate Encodes(outcome: Outcome, out: seq<byte>, before: seq<byte>, outCap: int, text: seq<byte>) {
    if |text| <= 512 && 1 + |text| <= outCap then
      outcome == Length(1 + |text|) && WrittenAt(out, before, 0, PacketText(EIO_MESSAGE, text))
    else
      outcome == Rejected && out == before
  }

  /** Finishes an encoder whose head has been written: the arguments, then the Engine.IO packet. */
  method FinishEvent(inner: array<byte>, head: int, ghost headText: seq<byte>, event: Input, eventLen: int,
                     data: Input, dataLen: int, out: array<byte>, outCap: int)
    returns (outcome: Outcome)
    requires inner.Length == INNER_CAP && inner != out && outCap <= out.Length
    requires event.Some? ==> eventLen <= |event.value|
    requires data.Some? ==> dataLen <= |data.value|
    requires ValidArguments(event, eventLen, data, dataLen)
    requires head == |headText| < INNER_CAP && inner[..head] == headText
    modifies inner, out
    ensures Encodes(outcome, out[..], old(out[..]), outCap,
                    headText + ArgumentsText(Argument(event, eventLen), Argument(data, dataLen)))
  {
    ghost var text := ArgumentsText(Argument(event, eventLen), Argument(data, dataLen));
    var ok, off := AppendArguments(inner, head, event, eventLen, data, dataLen);
    if !ok {
      return Rejected;
    }
    var n := EncodePacket(EIO_MESSAGE, Some(inner[..]), off, out, outCap);
    assert Argument(Some(inner[..]), off) == headText + text;
    return if n == -1 then Rejected else Length(n);
  }

  method EncodeEvent(event: Input, eventLen: int, data: Input, dataLen: int, out: array?<byte>, outCap: int)
    returns (outcome: Outcome)
    requires out != null ==> outCap <= out.Length
    requires event.Some? ==> eventLen <= |event.value|
    requires data.Some? ==> dataLen <= |data.value|
    modifies out
    ensures out == null || !ValidArguments(event, eventLen, data, dataLen) ==>
              outcome == Rejected && (out != null ==> out[..] == old(out[..]))
    ensures out != null && ValidArguments(event, eventLen, data, dataLen) ==>
              Encodes(outcome, out[..], old(out[..]), outCap,
                      EventText([], Argument(event, eventLen), Argument(data, dataLen)))
  {
    if out == null || outCap < 4 {
      return Rejected;
    }
    if eventLen <= 0 || event == None {
      return Rejected;
    }
    if dataLen < 0 {
      return Rejected;
    }
    if dataLen > 0 && data == None {
      return Rejected;
    }
    var inner := new byte[INNER_CAP];
    inner[0] := SIO_EVENT;
    assert inner[..1] == [SIO_EVENT] == [SIO_EVENT] + [];
    outcome := FinishEvent(inner, 1, [SIO_EVENT], event, eventLen, data, dataLen, out, outCap);
  }

  method EncodeEventAck(ackId: i32, event: Input, eventLen: int, data: Input, dataLen: int, out: array?<byte>, outCap: int)
    returns (outcome: Outcome)
    requires out != null ==> outCap <= out.Length
    requires event.Some? ==> eventLen <= |event.value|
    requires data.Some? ==> dataLen <= |data.value|
    modifies out
    ensures out == null || ackId < 0 || !ValidArguments(event, eventLen, data, dataLen) ==>
              outcome == Rejected && (out != null ==> out[..] == old(out[..]))
    ensures out != null && ackId >= 0 && ValidArguments(event, eventLen, data, dataLen) ==>
              Encodes(outcome, out[..], old(out[..]), outCap,
                      EventText(Numeral(ackId), Argument(event, eventLen), Argument(data, dataLen)))
  {
    if ackId < 0 || out == null {
      return Rejected;
    }
    if eventLen <= 0 || event == None {
      return Rejected;
    }
    if dataLen < 0 {
      return Rejected;
    }
    if dataLen > 0 && data == None {
      return Rejected;
    }
    var inner := new byte[INNER_CAP];
    inner[0] := SIO_EVENT;
    TenDigitsSuffice(ackId);
    var status, off := AppendU32Dec(inner, INNER_CAP, 1, ackId);
    assert inner[..off] == [SIO_EVENT] + Numeral(ackId);
    outcome := FinishEvent(inner, off, [SIO_EVENT] + Numeral(ackId), event, eventLen, data, dataLen, out, outCap);
  }

  /** The namespaces that mean the default one. */
  predicate IsDefaultNamespace(ns: Input, nsLen: int)
    requires ns.Some? ==> nsLen <= |ns.value|
  {
    ns == None || nsLen == 0 || (nsLen == 1 && ns.value[0] == SLASH)
  }

  /**
   * The namespace variant stores the comma and the bracket after the namespace without comparing
   * with the capacity, so it traps exactly on namespaces of 510 and 511 bytes.
   */
  method EncodeEventNs(ns: Input, nsLen: int, event: Input, eventLen: int, data: Input, dataLen: int,
                       out: array?<byte>, outCap: int)
    returns (outcome: Outcome)
    requires out != null ==> outCap <= out.Length
    requires ns.Some? ==> nsLen <= |ns.value|
    requires event.Some? ==> eventLen <= |event.value|
    requires data.Some? ==> dataLen <= |data.value|
    modifies out
    ensures var accepted := out != null && nsLen >= 0 && ValidArguments(event, eventLen, data, dataLen);
            if accepted && IsDefaultNamespace(ns, nsLen) then
              Encodes(outcome, out[..], old(out[..]), outCap,
                      EventText([], Argument(event, eventLen), Argument(data, dataLen)))
            else if accepted && outCap >= 4 && ns.value[0] == SLASH && nsLen < 510 then
              Encodes(outcome, out[..], old(out[..]), outCap,
                      EventText(ns.value[..nsLen] + [COMMA], Argument(event, eventLen), Argument(data, dataLen)))
            else
              && (out != null ==> out[..] == old(out[..]))
              && outcome == if accepted && outCap >= 4 && ns.value[0] == SLASH && nsLen < 512 then Trapped else Rejected
  {
    if out == null || outCap < 4 {
      return Rejected;
    }
    if nsLen < 0 {
      return Rejected;
    }
    if ns == None || nsLen == 0 || (nsLen == 1 && ns.value[0] == SLASH) {
      outcome := EncodeEvent(event, eventLen, data, dataLen, out, outCap);
      return;
    }
    if ns.value[0] != SLASH {
      return Rejected;
    }
    if eventLen <= 0 || event == None {
      return Rejected;
    }
    if dataLen < 0 {
      return Rejected;
    }
    if dataLen > 0 && data == None {
      return Rejected;
    }
    var inner := new byte[INNER_CAP];
    inner[0] := SIO_EVENT;
    var status, off := AppendBytes(inner, INNER_CAP, 1, ns, nsLen);
    if status != 0 {
      return Rejected;
    }
    if off >= INNER_CAP {
      return Trapped;
    }
    ghost var named := [SIO_EVENT] + ns.value[..nsLen];
    assert inner[..off] == named;
    inner[off] := COMMA;
    off := off + 1;
    if off >= INNER_CAP {
      return Trapped;
    }
    assert inner[..off] == named + [COMMA] == [SIO_EVENT] + (ns.value[..nsLen] + [COMMA]);
    outcome := FinishEvent(inner, off, named + [COMMA], event, eventLen, data, dataLen, out, outCap);
  }
}
