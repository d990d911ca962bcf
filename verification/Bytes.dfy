/** Byte-level vocabulary shared by the text emitters, the printers and the wire codec. */
module Bytes {
  import opened Options

  type byte = b: int | 0 <= b < 256

  type u32 = n: int | 0 <= n < 0x1_0000_0000

  type i32 = n: int | -0x8000_0000 <= n < 0x8000_0000

  const QUOTE: byte := 34
  const COMMA: byte := 44
  const MINUS: byte := 45
  const SLASH: byte := 47
  const ZERO: byte := 48
  const NINE: byte := 57
  const OPEN_BRACKET: byte := 91
  const BACKSLASH: byte := 92
  const CLOSE_BRACKET: byte := 93
  const LOWER_N: byte := 110

  predicate IsDigit(b: byte) {
    '0' as int <= b <= '9' as int
  }

  /** The first index at or after `i` that holds `b`, or the length when there is none. */
  function FirstIndex(s: seq<byte>, b: byte, i: nat): (j: nat)
    requires i <= |s|
    ensures i <= j <= |s|
    ensures b !in s[i..j]
    ensures j < |s| ==> s[j] == b
    decreases |s| - i
  {
    if i == |s| || s[i] == b then i else FirstIndex(s, b, i + 1)
  }

  lemma FirstIndexIs(s: seq<byte>, b: byte, i: nat, j: nat)
    requires i <= j <= |s|
    requires b !in s[i..j]
    requires j < |s| ==> s[j] == b
    ensures FirstIndex(s, b, i) == j
  {
  }

  /** What an out-pointer to an integer points to. */
  class Cell {
    var value: int
  }

  /** A pointer to read-only bytes, possibly null. */
  type Input = Option<seq<byte>>

  /** The bytes a caller passes as a pointer and a length. */
  function Argument(p: Input, len: int): (s: seq<byte>)
    requires p.Some? ==> len <= |p.value|
  {
    if p == None || len <= 0 then [] else p.value[..len]
  }

  /** `after` is `before` with `text` written over it at `off`, and nothing else changed. */
  ghost predicate WrittenAt(after: seq<byte>, before: seq<byte>, off: int, text: seq<byte>) {
    && |after| == |before|
    && (text != [] ==> 0 <= off <= off + |text| <= |before|)
    && forall k | 0 <= k < |after| :: after[k] == if off <= k < off + |text| then text[k - off] else before[k]
  }

  lemma WrittenThen(after: seq<byte>, mid: seq<byte>, before: seq<byte>, off: int, a: seq<byte>, b: seq<byte>)
    requires off >= 0
    requires WrittenAt(mid, before, off, a) && WrittenAt(after, mid, off + |a|, b)
    ensures WrittenAt(after, before, off, a + b)
  {
  }

  lemma WrittenPrefix(after: seq<byte>, before: seq<byte>, off: int, text: seq<byte>)
    requires 0 <= off <= off + |text| <= |before| && WrittenAt(after, before, off, text)
    ensures after[..off + |text|] == before[..off] + text
  {
  }

  lemma Associate(a: seq<byte>, b: seq<byte>, c: seq<byte>)
    ensures a + b + c == a + (b + c)
  {
  }

  method Memcpy(out: array<byte>, at: int, src: seq<byte>, n: int)
    requires 0 <= at && 0 <= n <= |src| && at + n <= out.Length
    modifies out
    ensures WrittenAt(out[..], old(out[..]), at, src[..n])
  {
    forall k | 0 <= k < n {
      out[at + k] := src[k];
    }
  }
}
