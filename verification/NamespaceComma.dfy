/**
 * Event packets of every head the encoders write, namespaces that hold a comma included: the decoder
 * takes such a namespace to end at its first comma and reads the rest of it as the arguments.
 */
module NamespaceComma {
  import opened Append
  import opened Bytes
  import opened Decimal
  import opened EventDecoder
  import opened Options
  import opened SocketIo

  // ----- Where the decoder reads -------------------------------------------------------------------

  ghost predicate IsSlashNamespace(ns: seq<byte>) {
    ns != [] && ns[0] == SLASH
  }

  function FirstComma(ns: seq<byte>): (c: nat)
    ensures c <= |ns|
  {
    FirstIndex(ns, COMMA, 0)
  }

  function NamespacePacket(ns: seq<byte>, event: seq<byte>, data: seq<byte>): seq<byte> {
    EventText(ns + [COMMA], event, data)
  }

  /** The packet by position: its type, the namespace, a comma, the arguments. */
  ghost predicate IsPacketOf(p: seq<byte>, ns: seq<byte>, args: seq<byte>) {
    && |p| == |ns| + 2 + |args| && p[0] == SIO_EVENT
    && (forall k | 0 <= k < |ns| :: p[1 + k] == ns[k])
    && p[1 + |ns|] == COMMA
    && (forall k | 0 <= k < |args| :: p[2 + |ns| + k] == args[k])
  }

  lemma PacketParts(ns: seq<byte>, event: seq<byte>, data: seq<byte>)
    ensures |ArgumentsText(event, data)| >= 7
    ensures IsPacketOf(NamespacePacket(ns, event, data), ns, ArgumentsText(event, data))
  {
    PartsByPosition(ns, ArgumentsText(event, data));
  }

  lemma PartsByPosition(ns: seq<byte>, args: seq<byte>)
    ensures IsPacketOf([SIO_EVENT] + (ns + [COMMA]) + args, ns, args)
  {
  }

  /** The arguments are looked for just behind the first comma. */
  lemma DecodesBehindFirstComma(ns: seq<byte>, event: seq<byte>, data: seq<byte>, eventCap: int, dataCap: int)
    requires IsSlashNamespace(ns)
    ensures var p := NamespacePacket(ns, event, data);
            DecodedEvent(p, eventCap, dataCap) == ArgumentsAt(p, FirstComma(ns) + 2, eventCap, dataCap)
  {
    PacketParts(ns, event, data);
    ReadsBehindFirstComma(NamespacePacket(ns, event, data), ns, eventCap, dataCap);
  }

  lemma ReadsBehindFirstComma(p: seq<byte>, ns: seq<byte>, eventCap: int, dataCap: int)
    requires IsSlashNamespace(ns) && |p| > |ns| + 8 && p[0] == SIO_EVENT && p[1 + |ns|] == COMMA
    requires forall k | 0 <= k < |ns| :: p[1 + k] == ns[k]
    ensures DecodedEvent(p, eventCap, dataCap) == ArgumentsAt(p, FirstComma(ns) + 2, eventCap, dataCap)
  {
    assert p[1 + 0] == ns[0];
    CommaBehind(p, ns, FirstComma(ns));
  }

  lemma CommaBehind(p: seq<byte>, ns: seq<byte>, c: nat)
    requires c == FirstComma(ns) && 1 + |ns| < |p| && p[1 + |ns|] == COMMA
    requires forall k | 0 <= k < |ns| :: p[1 + k] == ns[k]
    ensures FirstIndex(p, COMMA, 1) == 1 + c
  {
    assert p[1..1 + c] == ns[0..c];
    FirstIndexIs(p, COMMA, 1, 1 + c);
  }

  /** The namespace goes on with `["` behind its first comma. */
  predicate OpensArguments(ns: seq<byte>) {
    var c := FirstComma(ns);
    c + 2 < |ns| && ns[c + 1] == OPEN_BRACKET && ns[c + 2] == QUOTE
  }

  /** Any other namespace with a comma is not decoded at all. */
  lemma OtherwiseNotDecoded(ns: seq<byte>, event: seq<byte>, data: seq<byte>, eventCap: int, dataCap: int)
    requires IsSlashNamespace(ns) && COMMA in ns && !OpensArguments(ns)
    ensures DecodedEvent(NamespacePacket(ns, event, data), eventCap, dataCap) == None
  {
    DecodesBehindFirstComma(ns, event, data, eventCap, dataCap);
    PacketParts(ns, event, data);
    CommaIsInside(ns);
  }

  lemma CommaIsInside(ns: seq<byte>)
    requires COMMA in ns
    ensures FirstComma(ns) < |ns| && ns[FirstComma(ns)] == COMMA
  {
    assert ns[0..|ns|] == ns;
  }

  // ----- What the decoder hears --------------------------------------------------------------------

  /** What the scan makes of quote-free bytes before a quote: a backslash gives the byte after it. */
  function Heard(s: seq<byte>): (r: seq<byte>)
    ensures |r| == |s|
  {
    if s == [] then []
    else [if s[0] != BACKSLASH then s[0] else if |s| > 1 then s[1] else QUOTE] + Heard(s[1..])
  }

  lemma {:induction false} HeardAt(s: seq<byte>, k: nat)
    requires k < |s|
    ensures Heard(s)[k] == if s[k] != BACKSLASH then s[k] else if k + 1 < |s| then s[k + 1] else QUOTE
  {
    if k > 0 {
      HeardAt(s[1..], k - 1);
    }
  }

  lemma ScanIsHeard(p: seq<byte>, from: nat, s: seq<byte>)
    requires from + |s| < |p| && p[from..from + |s|] == s && QUOTE !in s && p[from + |s|] == QUOTE
    ensures FirstIndex(p, QUOTE, from) == from + |s|
    ensures Scanned(p, from, from + |s|) == Heard(s)
  {
    FirstIndexIs(p, QUOTE, from, from + |s|);
    var got, heard := Scanned(p, from, from + |s|), Heard(s);
    forall k | 0 <= k < |s|
      ensures got[k] == heard[k]
    {
      assert got[(from + k) - from] == Emitted(p, from + k);
      HeardHere(p, from, s, k);
    }
  }

  lemma HeardHere(p: seq<byte>, from: nat, s: seq<byte>, k: nat)
    requires k < |s| && from + |s| < |p| && p[from..from + |s|] == s && p[from + |s|] == QUOTE
    ensures Emitted(p, from + k) == Heard(s)[k]
  {
    var part := p[from..from + |s|];
    assert p[from + k] == part[k];
    assert k + 1 < |s| ==> p[from + k + 1] == part[k + 1];
    EmittedIsHeard(p, from + k, s, k);
  }

  lemma EmittedIsHeard(p: seq<byte>, at: nat, s: seq<byte>, k: nat)
    requires k < |s| && at + 1 < |p| && p[at] == s[k] && p[at + 1] == if k + 1 < |s| then s[k + 1] else QUOTE
    ensures Emitted(p, at) == Heard(s)[k]
  {
    HeardAt(s, k);
  }

  /** What stands before the first quote when the arguments follow the bytes `s` and a comma. */
  function BeforeQuote(s: seq<byte>): (r: seq<byte>)
    ensures QUOTE !in r
  {
    var q := FirstIndex(s, QUOTE, 0);
    assert s[0..q] == s[..q];
    if q < |s| then s[..q] else s + [COMMA, OPEN_BRACKET]
  }

  /** The bytes from `from` on are the end `s` of a namespace, a comma and the arguments. */
  ghost predicate TailAt(p: seq<byte>, from: nat, s: seq<byte>, args: seq<byte>) {
    && from + |s| + 1 + |args| == |p|
    && (forall k | 0 <= k < |s| :: p[from + k] == s[k])
    && p[from + |s|] == COMMA
    && (forall k | 0 <= k < |args| :: p[from + |s| + 1 + k] == args[k])
  }

  ghost predicate AreArguments(args: seq<byte>) {
    |args| >= 7 && args[0] == OPEN_BRACKET && args[1] == QUOTE
  }

  /** A string that starts in the namespace ends at a quote of the namespace or at the first of the arguments. */
  lemma StringInTail(p: seq<byte>, from: nat, s: seq<byte>, args: seq<byte>)
    requires TailAt(p, from, s, args) && AreArguments(args)
    ensures var close := from + |BeforeQuote(s)|;
            && close < |p| && FirstIndex(p, QUOTE, from) == close
            && Scanned(p, from, close) == Heard(BeforeQuote(s))
  {
    var b, q := BeforeQuote(s), FirstIndex(s, QUOTE, 0);
    assert q == |s| ==> p[from + |s| + 1 + 0] == args[0] && p[from + |s| + 1 + 1] == args[1];
    assert q < |s| ==> p[from + q] == s[q];
    assert forall k | 0 <= k < |b| :: p[from + k] == b[k];
    assert p[from..from + |b|] == b;
    ScanIsHeard(p, from, b);
  }

  lemma TailMoves(p: seq<byte>, from: nat, s: seq<byte>, args: seq<byte>, k: nat)
    requires TailAt(p, from, s, args) && k <= |s|
    ensures TailAt(p, from + k, s[k..], args)
  {
  }

  // ----- The data ----------------------------------------------------------------------------------

  /** The end `z` of a namespace says `null`, for which its first two letters are enough, or starts a string. */
  predicate SaysData(z: seq<byte>, data: seq<byte>) {
    z != [] &&
    if z[0] == LOWER_N then |z| > 1 && z[1] == 117 && data == []
    else z[0] == QUOTE && data == Heard(BeforeQuote(z[1..]))
  }

  lemma DataInTail(p: seq<byte>, i: nat, z: seq<byte>, args: seq<byte>, data: seq<byte>, dataCap: int)
    requires TailAt(p, i, z, args) && AreArguments(args)
    ensures DataAt(p, i, dataCap) == Some(data) <==> SaysData(z, data) && (data == [] || |data| <= dataCap)
  {
    assert p[i] == if z == [] then COMMA else z[0];
    assert p[i + 1] == if |z| > 1 then z[1] else if |z| == 1 then COMMA else args[0];
    if z != [] && z[0] == QUOTE {
      TailMoves(p, i, z, args, 1);
      StringInTail(p, i + 1, z[1..], args);
    }
  }

  /** One byte is skipped behind the event; when the namespace is at its end there, no data follows. */
  lemma DataBehindEvent(p: seq<byte>, from: nat, w: seq<byte>, args: seq<byte>, data: seq<byte>, dataCap: int)
    requires TailAt(p, from, w, args) && AreArguments(args)
    ensures DataAt(p, from + 1, dataCap) == Some(data) <==>
            w != [] && SaysData(w[1..], data) && (data == [] || |data| <= dataCap)
  {
    if w != [] {
      TailMoves(p, from, w, args, 1);
      DataInTail(p, from + 1, w[1..], args, data, dataCap);
    } else {
      assert p[from + 1] == args[0];
    }
  }

  // ----- The event ends in the arguments -----------------------------------------------------------

  /** The event is an ordinary byte, then `nu`, which the decoder takes for the start of `null`. */
  predicate LooksNull(event: seq<byte>) {
    |event| > 2 && !IsSpecial(event[0]) && event[1] == LOWER_N && event[2] == 117
  }

  lemma EscapedStart(event: seq<byte>)
    requires |event| >= 2 && event[0] != QUOTE
    ensures |Escaped(event)| >= 2 && Escaped(event)[1] != QUOTE
    ensures (Escaped(event) + [QUOTE])[1] == LOWER_N && (Escaped(event) + [QUOTE])[2] == 117 <==> LooksNull(event)
  {
    EscapedNotShorter(event);
    var rest := event[1..];
    assert Escaped(event) == (if IsSpecial(event[0]) then [BACKSLASH, event[0]] else [event[0]]) + Escaped(rest);
    assert Escaped(rest) == (if IsSpecial(rest[0]) then [BACKSLASH, rest[0]] else [rest[0]]) + Escaped(rest[1..]);
    if |rest| > 1 {
      assert Escaped(rest[1..]) ==
             (if IsSpecial(event[2]) then [BACKSLASH, event[2]] else [event[2]]) + Escaped(rest[1..][1..]);
    }
  }

  /** Bytes that start like the arguments of the event. */
  ghost predicate StartLike(args: seq<byte>, event: seq<byte>) {
    && AreArguments(args) && |args| >= |Escaped(event)| + 6
    && forall k | 0 <= k <= |Escaped(event)| :: args[2 + k] == (Escaped(event) + [QUOTE])[k]
  }

  lemma ArgumentsStart(event: seq<byte>, data: seq<byte>)
    ensures StartLike(ArgumentsText(event, data), event)
  {
    var args := ArgumentsText(event, data);
    assert [] + args == args;
    ArgumentsInside(args, [], event, data);
    StartAt(args, event);
  }

  lemma StartAt(args: seq<byte>, event: seq<byte>)
    requires QuotedAt(args, 1, event)
    ensures args[1] == QUOTE
    ensures forall k | 0 <= k <= |Escaped(event)| :: args[2 + k] == (Escaped(event) + [QUOTE])[k]
  {
    var e := Escaped(event);
    forall k | 0 <= k < |e|
      ensures args[2 + k] == e[k]
    {
      assert args[2 + k] == args[2..2 + |e|][k];
    }
  }

  /** Behind the first quote of the arguments the decoder is inside the event. */
  lemma DataInsideEvent(p: seq<byte>, i: nat, args: seq<byte>, event: seq<byte>, data: seq<byte>, dataCap: int)
    requires |p| == i + |args| && forall k | 0 <= k < |args| :: p[i + k] == args[k]
    requires StartLike(args, event) && |event| >= 2 && event[0] != QUOTE
    ensures DataAt(p, i + 3, dataCap) == Some(data) <==> data == [] && LooksNull(event)
  {
    EscapedStart(event);
    var e := Escaped(event) + [QUOTE];
    assert p[i + 3] == args[2 + 1] == e[1] && p[i + 4] == args[2 + 2] == e[2];
  }

  // ----- Exactly when an event survives such a namespace ------------------------------------------

  /** What stands behind `["` in the namespace is heard as the event and the data. */
  predicate SaysEvent(u: seq<byte>, event: seq<byte>, data: seq<byte>) {
    var q := FirstIndex(u, QUOTE, 0);
    && event == Heard(BeforeQuote(u))
    && if q == |u| then data == [] && LooksNull(event) else q + 1 < |u| && SaysData(u[q + 2..], data)
  }

  lemma HeardIsNoQuote(s: seq<byte>)
    requires |s| >= 2 && QUOTE !in s
    ensures Heard(s)[0] != QUOTE
  {
    assert s[0] in s && s[1] in s;
  }

  /** What the decoder makes of the bytes behind an event that ends at quote `q` of the namespace. */
  lemma DataOfClosedEvent(p: seq<byte>, from: nat, u: seq<byte>, q: nat, args: seq<byte>, data: seq<byte>, dataCap: int)
    requires TailAt(p, from, u, args) && AreArguments(args) && q < |u|
    ensures DataAt(p, from + q + 2, dataCap) == Some(data) <==>
            q + 1 < |u| && SaysData(u[q + 2..], data) && (data == [] || |data| <= dataCap)
  {
    var w := u[q + 1..];
    TailMoves(p, from, u, args, q + 1);
    DataBehindEvent(p, from + q + 1, w, args, data, dataCap);
    assert q + 1 < |u| ==> w[1..] == u[q + 2..];
  }

  /** And behind an event that goes on into the arguments. */
  lemma DataOfOpenEvent(p: seq<byte>, from: nat, u: seq<byte>, args: seq<byte>, event: seq<byte>, data: seq<byte>, dataCap: int)
    requires TailAt(p, from, u, args) && StartLike(args, event) && FirstIndex(u, QUOTE, 0) == |u|
    requires event == Heard(BeforeQuote(u))
    ensures DataAt(p, from + |BeforeQuote(u)| + 2, dataCap) == Some(data) <==> data == [] && LooksNull(event)
  {
    OpenStringIs(u);
    HeardIsNoQuote(BeforeQuote(u));
    DataInsideEvent(p, from + |u| + 1, args, event, data, dataCap);
  }

  lemma OpenStringIs(u: seq<byte>)
    requires FirstIndex(u, QUOTE, 0) == |u|
    ensures |BeforeQuote(u)| == |u| + 2
  {
    assert u[0..|u|] == u;
  }

  lemma DataOfEvent(p: seq<byte>, from: nat, u: seq<byte>, args: seq<byte>, event: seq<byte>, data: seq<byte>, dataCap: int)
    requires TailAt(p, from, u, args) && StartLike(args, event)
    requires event == Heard(BeforeQuote(u))
    ensures DataAt(p, from + |BeforeQuote(u)| + 2, dataCap) == Some(data) <==>
            SaysEvent(u, event, data) && (data == [] || |data| <= dataCap)
  {
    var q := FirstIndex(u, QUOTE, 0);
    if q == |u| {
      DataOfOpenEvent(p, from, u, args, event, data, dataCap);
    } else {
      DataOfClosedEvent(p, from, u, q, args, data, dataCap);
    }
  }

  lemma EventInTail(p: seq<byte>, from: nat, u: seq<byte>, args: seq<byte>, event: seq<byte>, data: seq<byte>,
                    eventCap: int, dataCap: int)
    requires TailAt(p, from, u, args) && StartLike(args, event)
    requires from >= 2 && p[from - 2] == OPEN_BRACKET && p[from - 1] == QUOTE && event != []
    ensures ArgumentsAt(p, from - 2, eventCap, dataCap) == Some((event, data)) <==>
            SaysEvent(u, event, data) && |event| < eventCap && (data == [] || |data| <= dataCap)
  {
    var got := Heard(BeforeQuote(u));
    StringInTail(p, from, u, args);
    ArgumentsAtIs(p, from - 2, from + |BeforeQuote(u)|, got, event, data, eventCap, dataCap);
    if event == got {
      DataOfEvent(p, from, u, args, event, data, dataCap);
    }
  }

  lemma ArgumentsAtIs(p: seq<byte>, i: nat, close: nat, got: seq<byte>, event: seq<byte>, data: seq<byte>,
                      eventCap: int, dataCap: int)
    requires i + 3 < |p| && p[i] == OPEN_BRACKET && p[i + 1] == QUOTE
    requires i + 2 <= close < |p| && FirstIndex(p, QUOTE, i + 2) == close && Scanned(p, i + 2, close) == got
    requires event != []
    ensures ArgumentsAt(p, i, eventCap, dataCap) == Some((event, data)) <==>
            got == event && |event| < eventCap && DataAt(p, close + 2, dataCap) == Some(data)
  {
  }

  lemma NamespaceEnd(p: seq<byte>, ns: seq<byte>, k: nat, args: seq<byte>)
    requires 2 <= k <= |ns| && IsPacketOf(p, ns, args)
    ensures TailAt(p, k + 1, ns[k..], args)
    ensures p[k] == ns[k - 1] && p[k - 1] == ns[k - 2]
  {
    assert p[1 + (k - 1)] == ns[k - 1] && p[1 + (k - 2)] == ns[k - 2];
  }

  lemma OpenPacketIff(p: seq<byte>, ns: seq<byte>, args: seq<byte>, event: seq<byte>, data: seq<byte>,
                      eventCap: int, dataCap: int)
    requires IsPacketOf(p, ns, args) && StartLike(args, event) && event != []
    requires IsSlashNamespace(ns) && OpensArguments(ns)
    ensures DecodedEvent(p, eventCap, dataCap) == Some((event, data)) <==>
            && SaysEvent(ns[FirstComma(ns) + 3..], event, data)
            && |event| < eventCap && (data == [] || |data| <= dataCap)
  {
    var c := FirstComma(ns);
    ReadsBehindFirstComma(p, ns, eventCap, dataCap);
    NamespaceEnd(p, ns, c + 3, args);
    EventInTail(p, c + 4, ns[c + 3..], args, event, data, eventCap, dataCap);
  }

  /**
   * An event sent under a namespace with a comma is decoded as it was exactly when the namespace
   * itself goes on with `["` behind its first comma and what follows there is heard as the event
   * and the data.
   */
  lemma CommaRoundTripIff(ns: seq<byte>, event: seq<byte>, data: seq<byte>, eventCap: int, dataCap: int)
    requires IsSlashNamespace(ns) && COMMA in ns && event != []
    ensures DecodedEvent(NamespacePacket(ns, event, data), eventCap, dataCap) == Some((event, data)) <==>
            && OpensArguments(ns) && SaysEvent(ns[FirstComma(ns) + 3..], event, data)
            && |event| < eventCap && (data == [] || |data| <= dataCap)
  {
    if OpensArguments(ns) {
      var p, args := NamespacePacket(ns, event, data), ArgumentsText(event, data);
      PacketParts(ns, event, data);
      ArgumentsStart(event, data);
      OpenPacketIff(p, ns, args, event, data, eventCap, dataCap);
    } else {
      OtherwiseNotDecoded(ns, event, data, eventCap, dataCap);
    }
  }

  lemma SaysQuoted(u: seq<byte>, e: seq<byte>, d: seq<byte>, rest: seq<byte>)
    requires u == e + [QUOTE, COMMA, QUOTE] + (d + [QUOTE] + rest) && QUOTE !in e && QUOTE !in d
    ensures SaysEvent(u, Heard(e), Heard(d))
  {
    var z := d + [QUOTE] + rest;
    assert u[0..|e|] == e && u[..|e|] == e;
    FirstIndexIs(u, QUOTE, 0, |e|);
    assert z[0..|d|] == d && z[..|d|] == d;
    FirstIndexIs(z, QUOTE, 0, |d|);
    assert u[|e| + 2..][1..] == z;
  }

  lemma OpensBehind(ns: seq<byte>, a: seq<byte>, u: seq<byte>)
    requires ns == a + [COMMA, OPEN_BRACKET, QUOTE] + u && COMMA !in a
    ensures FirstComma(ns) == |a| && COMMA in ns && OpensArguments(ns) && ns[|a| + 3..] == u
  {
    assert ns[0..|a|] == a && ns[|a|] == COMMA;
    FirstIndexIs(ns, COMMA, 0, |a|);
  }

  /** A namespace that itself goes on with `,["e","d"`, its strings free of quotes, gives back what they are heard as. */
  lemma SomeAreDecoded(ns: seq<byte>, a: seq<byte>, e: seq<byte>, d: seq<byte>, rest: seq<byte>,
                       eventCap: int, dataCap: int)
    requires IsSlashNamespace(a) && COMMA !in a && e != [] && QUOTE !in e && QUOTE !in d
    requires ns == a + [COMMA, OPEN_BRACKET, QUOTE] + (e + [QUOTE, COMMA, QUOTE] + (d + [QUOTE] + rest))
    requires |e| < eventCap && |d| <= dataCap
    ensures DecodedEvent(NamespacePacket(ns, Heard(e), Heard(d)), eventCap, dataCap) == Some((Heard(e), Heard(d)))
  {
    var u := e + [QUOTE, COMMA, QUOTE] + (d + [QUOTE] + rest);
    SaysQuoted(u, e, d, rest);
    OpensBehind(ns, a, u);
    assert ns[0] == a[0];
    CommaRoundTripIff(ns, Heard(e), Heard(d), eventCap, dataCap);
  }

  // ----- Every head ----------------------------------------------------------------------------------

  /** What the three encoders put before the arguments: nothing, an acknowledgement id, or a namespace and a comma. */
  datatype Head = NoHead | AckHead(id: nat) | NamespaceHead(ns: seq<byte>)

  function HeadText(h: Head): seq<byte> {
    match h
    case NoHead => []
    case AckHead(id) => Numeral(id)
    case NamespaceHead(ns) => ns + [COMMA]
  }

  /** The exact condition for an event to survive the encoder and the decoder. */
  ghost predicate Survives(h: Head, event: seq<byte>, data: seq<byte>, eventCap: int, dataCap: int) {
    && |event| < eventCap && (data == [] || |data| <= dataCap)
    && if h.NamespaceHead? && COMMA in h.ns
       then OpensArguments(h.ns) && SaysEvent(h.ns[FirstComma(h.ns) + 3..], event, data)
       else Clean(event) && (Clean(data) || EndsInItsOnlyQuote(data))
  }

  lemma RoundTripIff(h: Head, event: seq<byte>, data: seq<byte>, eventCap: int, dataCap: int)
    requires event != [] && (h.NamespaceHead? ==> IsSlashNamespace(h.ns))
    ensures DecodedEvent(EventText(HeadText(h), event, data), eventCap, dataCap) == Some((event, data)) <==>
            Survives(h, event, data, eventCap, dataCap)
  {
    match h {
      case NoHead => EventRoundTripIff([], event, data, eventCap, dataCap);
      case AckHead(id) =>
        AckIsHead(id);
        EventRoundTripIff(Numeral(id), event, data, eventCap, dataCap);
      case NamespaceHead(ns) =>
        if COMMA in ns {
          CommaRoundTripIff(ns, event, data, eventCap, dataCap);
        } else {
          assert (ns + [COMMA])[0..|ns|] == ns;
          FirstIndexIs(ns + [COMMA], COMMA, 0, |ns|);
          EventRoundTripIff(ns + [COMMA], event, data, eventCap, dataCap);
        }
    }
  }

  /** The same on the output of an encoder: the packet without its first byte is what the decoder is given. */
  lemma EncodedEventSurvivesIff(out: seq<byte>, before: seq<byte>, outCap: int, n: int, h: Head,
                                event: seq<byte>, data: seq<byte>, eventCap: int, dataCap: int)
    requires outCap <= |before| && Encodes(Length(n), out, before, outCap, EventText(HeadText(h), event, data))
    requires event != [] && (h.NamespaceHead? ==> IsSlashNamespace(h.ns))
    ensures 1 <= n <= |out| && ParsePacket(out[..n]) == Some((EIO_MESSAGE, out[1..n]))
    ensures DecodedEvent(out[1..n], eventCap, dataCap) == Some((event, data)) <==>
            Survives(h, event, data, eventCap, dataCap)
  {
    var text := EventText(HeadText(h), event, data);
    PacketIsWritten(out, before, outCap, n, text);
    RoundTripIff(h, event, data, eventCap, dataCap);
  }

  lemma PacketIsWritten(out: seq<byte>, before: seq<byte>, outCap: int, n: int, text: seq<byte>)
    requires outCap <= |before| && Encodes(Length(n), out, before, outCap, text)
    ensures 1 <= n <= |out| && ParsePacket(out[..n]) == Some((EIO_MESSAGE, out[1..n])) && out[1..n] == text
  {
    var packet := PacketText(EIO_MESSAGE, text);
    WrittenPrefix(out, before, 0, packet);
    assert out[..n] == packet;
    assert out[1..n] == text;
  }
}
