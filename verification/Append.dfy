/** The bounded appenders: each writes at `off`, never past `cap`, and reports the new offset. */
module Append {
  import opened Bytes
  import opened Decimal
  import opened Options

  /** Only bytes between `off` and `cap` differ. */
  ghost predicate OnlyBetween(after: seq<byte>, before: seq<byte>, off: int, cap: int) {
    |after| == |before| && forall k | 0 <= k < |after| && !(off <= k < cap) :: after[k] == before[k]
  }

  method AppendBytes(out: array?<byte>, cap: int, off: int, s: Input, slen: int)
    returns (status: int, end: int)
    requires out != null ==> cap <= out.Length
    requires s.Some? ==> slen <= |s.value|
    modifies out
    ensures status == 0 || status == -1
    ensures status == 0 <==>
            out != null && off >= 0 && (slen > 0 ==> s.Some? && off + slen <= cap)
    ensures status == 0 ==>
              end == off + |Argument(s, slen)| && WrittenAt(out[..], old(out[..]), off, Argument(s, slen))
    ensures out != null ==> OnlyBetween(out[..], old(out[..]), off, cap)
  {
    end := off;
    if out == null || off < 0 {
      return -1, end;
    }
    if slen > 0 && s == None {
      return -1, end;
    }
    ghost var text := Argument(s, slen);
    var i := 0;
    while i < slen
      invariant 0 <= i && (i <= slen || i == 0)
      invariant end == off + i && (i > 0 ==> end <= cap)
      invariant WrittenAt(out[..], old(out[..]), off, text[..i])
      invariant OnlyBetween(out[..], old(out[..]), off, cap)
    {
      if end >= cap {
        return -1, end;
      }
      out[end] := s.value[i];
      end := end + 1;
      i := i + 1;
    }
    assert text[..i] == text;
    return 0, end;
  }

  /** Digits into a scratch buffer, reversed in place, then appended. */
  method AppendU32Dec(out: array?<byte>, cap: int, off: int, v: u32) returns (status: int, end: int)
    requires out != null ==> cap <= out.Length
    modifies out
    ensures status == 0 || status == -1
    ensures status == 0 <==> out != null && off >= 0 && off + |Numeral(v)| <= cap
    ensures status == 0 ==>
              end == off + |Numeral(v)| && WrittenAt(out[..], old(out[..]), off, Numeral(v))
    ensures out != null ==> OnlyBetween(out[..], old(out[..]), off, cap)
  {
    end := off;
    if out == null || off < 0 {
      return -1, end;
    }
    var tmp, n := DigitsBackwards(v);
    if v == 0 {
      tmp[0] := ZERO;
      n := 1;
      assert tmp[..n] == Numeral(0);
    } else {
      ReverseInPlace(tmp, n);
    }
    assert tmp[..n] == Numeral(v);
    status, end := AppendBytes(out, cap, off, Some(tmp[..]), n);
  }

  method ReverseInPlace(tmp: array<byte>, n: int)
    requires 0 <= n <= tmp.Length
    modifies tmp
    ensures tmp[..n] == Reversed(old(tmp[..n]))
  {
    ghost var was, back := tmp[..n], Reversed(tmp[..n]);
    var i := 0;
    while i < n / 2
      invariant 0 <= i <= n / 2
      invariant forall k | 0 <= k < n :: tmp[k] == if k < i || n - 1 - k < i then back[k] else was[k]
    {
      assert back[i] == was[n - 1 - i] && back[n - 1 - i] == was[i];
      var t := tmp[i];
      tmp[i] := tmp[n - 1 - i];
      tmp[n - 1 - i] := t;
      i := i + 1;
    }
  }

  // ----- Quoted strings ------------------------------------------------------------------

  predicate IsSpecial(c: byte) {
    c == QUOTE || c == BACKSLASH
  }

  /** Quotes and backslashes each gain a backslash. */
  function Escaped(s: seq<byte>): (r: seq<byte>) {
    if s == [] then []
    else (if IsSpecial(s[0]) then [BACKSLASH, s[0]] else [s[0]]) + Escaped(s[1..])
  }

  function Quoted(s: seq<byte>): seq<byte> {
    [QUOTE] + Escaped(s) + [QUOTE]
  }

  lemma {:induction false} EscapedConcat(a: seq<byte>, b: seq<byte>)
    ensures Escaped(a + b) == Escaped(a) + Escaped(b)
  {
    if a == [] {
      assert a + b == b;
    } else {
      assert (a + b)[0] == a[0] && (a + b)[1..] == a[1..] + b;
      EscapedConcat(a[1..], b);
    }
  }

  /** Nothing but quotes and backslashes gains a byte. */
  lemma {:induction false} EscapedLength(s: seq<byte>)
    ensures |Escaped(s)| == |s| + multiset(s)['"' as int] + multiset(s)['\\' as int]
  {
    if s != [] {
      EscapedLength(s[1..]);
      assert s == [s[0]] + s[1..];
    }
  }

  lemma EscapedSnoc(s: seq<byte>, i: nat)
    requires i < |s|
    ensures Escaped(s[..i + 1]) == Escaped(s[..i]) + if IsSpecial(s[i]) then [BACKSLASH, s[i]] else [s[i]]
    ensures |Escaped(s[..i + 1])| <= |Escaped(s)|
  {
    EscapedConcat(s[..i], [s[i]]);
    assert s[..i + 1] == s[..i] + [s[i]];
    EscapedConcat(s[..i + 1], s[i + 1..]);
    assert s == s[..i + 1] + s[i + 1..];
    assert Escaped([s[i]]) == if IsSpecial(s[i]) then [BACKSLASH, s[i]] else [s[i]];
  }

  /** One store through the advancing offset: `text` has been written since `before`, now `b` follows it. */
  method PutByte(out: array<byte>, end: int, b: byte, ghost before: seq<byte>, ghost off: int, ghost text: seq<byte>)
    requires 0 <= off <= end == off + |text| < out.Length
    requires WrittenAt(out[..], before, off, text)
    modifies out
    ensures WrittenAt(out[..], before, off, text + [b])
    ensures OnlyBetween(out[..], old(out[..]), end, end + 1)
  {
    out[end] := b;
  }

  /** The two stores for a quote or a backslash. */
  method PutEscape(out: array<byte>, end: int, c: byte, ghost before: seq<byte>, ghost off: int, ghost text: seq<byte>)
    requires 0 <= off <= end == off + |text| && end + 1 < out.Length
    requires WrittenAt(out[..], before, off, text)
    modifies out
    ensures WrittenAt(out[..], before, off, text + [BACKSLASH, c])
    ensures OnlyBetween(out[..], old(out[..]), end, end + 2)
  {
    PutByte(out, end, BACKSLASH, before, off, text);
    PutByte(out, end + 1, c, before, off, text + [BACKSLASH]);
    assert text + [BACKSLASH] + [c] == text + [BACKSLASH, c];
  }

  method AppendJsonString(out: array?<byte>, cap: int, off: int, s: Input, slen: int)
    returns (status: int, end: int)
    requires out != null ==> cap <= out.Length
    requires s.Some? ==> slen <= |s.value|
    modifies out
    ensures status == 0 || status == -1
    ensures status == 0 <==>
            out != null && off >= 0 && (slen > 0 ==> s.Some?) && off + |Quoted(Argument(s, slen))| <= cap
    ensures status == 0 ==>
              end == off + |Quoted(Argument(s, slen))| &&
              WrittenAt(out[..], old(out[..]), off, Quoted(Argument(s, slen)))
    ensures out != null ==> OnlyBetween(out[..], old(out[..]), off, cap)
  {
    end := off;
    if out == null || off < 0 {
      return -1, end;
    }
    if slen > 0 && s == None {
      return -1, end;
    }
    if end + 1 >= cap {
      return -1, end;
    }
    ghost var text, before := Argument(s, slen), out[..];
    ghost var whole := |Quoted(text)|;
    assert whole == |Escaped(text)| + 2;
    ghost var done := [QUOTE];
    out[end] := QUOTE;
    end := end + 1;
    var i := 0;
    while i < slen
      invariant 0 <= i && (i <= slen || i == 0)
      invariant i <= |text| && done == [QUOTE] + Escaped(text[..i])
      invariant end == off + |done| <= cap
      invariant WrittenAt(out[..], before, off, done)
      invariant OnlyBetween(out[..], before, off, cap)
    {
      EscapedSnoc(text, i);
      var c := s.value[i];
      assert |done| + (if IsSpecial(c) then 2 else 1) < whole;
      if c == QUOTE || c == BACKSLASH {
        if end + 2 >= cap {
          return -1, end;
        }
        PutEscape(out, end, c, before, off, done);
        end := end + 2;
        done := done + [BACKSLASH, c];
        i := i + 1;
        continue;
      }
      if end >= cap {
        return -1, end;
      }
      PutByte(out, end, c, before, off, done);
      end := end + 1;
      done := done + [c];
      i := i + 1;
    }
    assert text[..i] == text;
    assert whole == |done| + 1;
    if end >= cap {
      return -1, end;
    }
    PutByte(out, end, QUOTE, before, off, done);
    end := end + 1;
    return 0, end;
  }
}
