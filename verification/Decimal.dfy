/** Decimal text: what a canonical numeral is, and the two printers that produce it. */
module Decimal {
  import opened Bytes

  /** The canonical numeral of `n`, most significant digit first. */
  function Numeral(n: nat): (s: seq<byte>)
    ensures |s| > 0
  {
    if n < 10 then [ZERO + n] else Numeral(n / 10) + [ZERO + n % 10]
  }

  /** The number a digit string denotes. */
  function Value(s: seq<byte>): int {
    if s == [] then 0 else 10 * Value(s[..|s| - 1]) + (s[|s| - 1] - '0' as int)
  }

  ghost predicate IsCanonical(s: seq<byte>) {
    && |s| > 0
    && (forall k | 0 <= k < |s| :: IsDigit(s[k]))
    && (s[0] == ZERO ==> |s| == 1)
  }

  function Power10(k: nat): (p: nat)
    ensures p > 0
  {
    if k == 0 then 1 else 10 * Power10(k - 1)
  }

  /** A numeral is canonical and reads back as the number it was printed from. */
  lemma {:induction false} NumeralReadsBack(n: nat)
    ensures IsCanonical(Numeral(n))
    ensures Numeral(n)[0] == ZERO ==> n == 0
    ensures Value(Numeral(n)) == n
  {
    if n < 10 {
      assert Numeral(n)[..0] == [];
    } else {
      NumeralReadsBack(n / 10);
      assert Numeral(n)[..|Numeral(n)| - 1] == Numeral(n / 10);
    }
  }

  /** Conversely every canonical digit string is the numeral of its value. */
  lemma {:induction false} CanonicalIsNumeral(s: seq<byte>)
    requires IsCanonical(s)
    ensures Value(s) >= 0 && Numeral(Value(s)) == s
    ensures Value(s) == 0 ==> s == [ZERO]
  {
    var init := s[..|s| - 1];
    if |s| == 1 {
      assert init == [];
      assert Value(init) == 0;
    } else {
      CanonicalIsNumeral(init);
      assert s == init + [s[|s| - 1]];
      assert IsDigit(s[|s| - 1]);
      DivModTen(Value(init), s[|s| - 1] - ZERO);
    }
  }

  lemma DivModTen(a: int, d: int)
    requires 0 <= d < 10
    ensures (10 * a + d) / 10 == a && (10 * a + d) % 10 == d
  {
  }

  /** `k` digits suffice exactly for the numbers below ten to the `k`. */
  lemma {:induction false} NumeralLength(n: nat, k: nat)
    requires k > 0
    ensures |Numeral(n)| <= k <==> n < Power10(k)
  {
    if n < 10 {
      PowerAtLeastTen(k);
    } else if k == 1 {
      assert Power10(1) == 10 * Power10(0);
      assert |Numeral(n / 10)| > 0;
    } else {
      NumeralLength(n / 10, k - 1);
    }
  }

  lemma PowerAtLeastTen(k: nat)
    requires k > 0
    ensures Power10(k) >= 10
  {
  }

  /** Ten digits are enough for every 32-bit unsigned value. */
  lemma TenDigitsSuffice(u: u32)
    ensures |Numeral(u)| <= 10
  {
    assert Power10(5) == 100000;
    assert Power10(10) == 10000000000 by {
      assert Power10(10) == 100000 * Power10(5) by {
        assert Power10(7) == 100 * Power10(5);
        assert Power10(9) == 100 * Power10(7);
      }
    }
    NumeralLength(u, 10);
  }

  /** What is left to print once the digits of `n` after the first `v` have been produced. */
  ghost predicate Produced(n: nat, v: nat, tail: seq<byte>) {
    if v == 0 then n > 0 && Numeral(n) == tail else Numeral(n) == Numeral(v) + tail
  }

  lemma ProduceOne(n: nat, v: nat, tail: seq<byte>)
    requires v > 0 && Produced(n, v, tail) && n > 0
    ensures Produced(n, v / 10, [ZERO + v % 10] + tail)
  {
    var d: byte := ZERO + v % 10;
    if v < 10 {
      assert Numeral(v) == [d];
    } else {
      assert Numeral(v / 10) + [d] + tail == Numeral(v / 10) + ([d] + tail);
    }
  }

  /** The first `n` bytes of a scratch buffer, last one first. */
  function Reversed(s: seq<byte>): (r: seq<byte>)
    ensures |r| == |s|
    ensures forall k | 0 <= k < |s| :: r[k] == s[|s| - 1 - k]
  {
    seq(|s|, k requires 0 <= k < |s| => s[|s| - 1 - k])
  }

  /** The text of a signed value. */
  function SignedNumeral(v: int): seq<byte> {
    if v < 0 then [MINUS] + Numeral(-v) else Numeral(v)
  }

  /** The value a signed numeral denotes. */
  function SignedValue(s: seq<byte>): int {
    if s != [] && s[0] == '-' as int then -Value(s[1..]) else Value(s)
  }

  lemma SignedNumeralReadsBack(v: int)
    ensures SignedValue(SignedNumeral(v)) == v
  {
    if v < 0 {
      NumeralReadsBack(-v);
      assert SignedNumeral(v)[1..] == Numeral(-v);
    } else {
      NumeralReadsBack(v);
      assert IsDigit(Numeral(v)[0]);
    }
  }

  /** The digit loop both printers share: the numeral of `u`, least significant digit first. */
  method DigitsBackwards(u: u32) returns (tmp: array<byte>, count: int)
    ensures fresh(tmp) && tmp.Length == 12
    ensures 0 <= count <= 10 && (count == 0 <==> u == 0)
    ensures u > 0 ==> Reversed(tmp[..count]) == Numeral(u)
  {
    tmp := new byte[12];
    count := 0;
    var v := u;
    TenDigitsSuffice(u);
    while v > 0 && count < 10
      invariant 0 <= count <= 10 && 0 <= v
      invariant count == 0 <==> v == u
      invariant u == 0 ==> v == 0
      invariant u > 0 ==> Produced(u, v, Reversed(tmp[..count]))
      decreases v
    {
      ghost var before := tmp[..count];
      ProduceOne(u, v, Reversed(before));
      tmp[count] := ZERO + v % 10;
      count := count + 1;
      assert tmp[..count] == before + [ZERO + v % 10];
      assert Reversed(tmp[..count]) == [ZERO + v % 10] + Reversed(before);
      v := v / 10;
    }
  }

  /** Prints `u` at `off`, or refuses when it needs more than `max` bytes. */
  method FormatU32(buf: array?<byte>, off: int, max: int, u: u32) returns (n: int)
    requires buf != null && max >= 1 ==> 0 <= off && off + max <= buf.Length
    modifies buf
    ensures n == -1 <==> buf == null || |Numeral(u)| > max
    ensures n == -1 && buf != null ==> buf[..] == old(buf[..])
    ensures n != -1 ==> n == |Numeral(u)| && WrittenAt(buf[..], old(buf[..]), off, Numeral(u))
  {
    if buf == null || max < 1 {
      return -1;
    }
    var tmp, count := DigitsBackwards(u);
    if count == 0 {
      buf[off] := ZERO;
      assert Numeral(0) == [ZERO];
      return 1;
    }
    if count > max {
      return -1;
    }
    ghost var before, digits, text := buf[..], tmp[..count], Numeral(u);
    var idx := 0;
    while idx < count
      invariant 0 <= idx <= count
      invariant WrittenAt(buf[..], before, off, text[..idx])
      invariant fresh(tmp) && tmp[..count] == digits
    {
      assert text[idx] == digits[count - 1 - idx];
      buf[off + idx] := tmp[count - 1 - idx];
      idx := idx + 1;
    }
    assert text[..count] == text;
    return count;
  }

  /** Prints a signed value; the most negative one is copied from a table. */
  method FormatI32(buf: array?<byte>, off: int, max: int, val: i32) returns (n: int)
    requires buf != null && max >= 1 ==> 0 <= off && off + max <= buf.Length
    modifies buf
    ensures n == -1 <==> buf == null || |SignedNumeral(val)| > max
    ensures n == -1 && buf != null ==>
              forall k | 0 <= k < buf.Length :: buf[k] == old(buf[k]) || (k == off && val < 0 && buf[k] == MINUS)
    ensures n != -1 ==> n == |SignedNumeral(val)| && WrittenAt(buf[..], old(buf[..]), off, SignedNumeral(val))
  {
    if buf == null || max < 1 {
      return -1;
    }
    if val < 0 {
      if val == -0x8000_0000 {
        LowestNumeral();
        if max < 11 {
          return -1;
        }
        CopyLowest(buf, off);
        return 11;
      }
      buf[off] := MINUS;
      label signed:
      assert WrittenAt(buf[..], old(buf[..]), off, [MINUS]);
      n := FormatU32(buf, off + 1, max - 1, -val);
      if n < 0 {
        return -1;
      }
      WrittenThen(buf[..], old@signed(buf[..]), old(buf[..]), off, [MINUS], Numeral(-val));
      return n + 1;
    }
    n := FormatU32(buf, off, max, val);
  }

  method CopyLowest(buf: array<byte>, off: int)
    requires 0 <= off && off + 11 <= buf.Length
    modifies buf
    ensures WrittenAt(buf[..], old(buf[..]), off, MIN_I32)
  {
    var k := 0;
    while k < 11
      invariant 0 <= k <= 11
      invariant WrittenAt(buf[..], old(buf[..]), off, MIN_I32[..k])
    {
      buf[off + k] := MIN_I32[k];
      k := k + 1;
    }
    assert MIN_I32[..11] == MIN_I32;
  }

  const MIN_I32: seq<byte> := [45, 50, 49, 52, 55, 52, 56, 51, 54, 52, 56]

  lemma LowestNumeral()
    ensures SignedNumeral(-0x8000_0000) == MIN_I32
  {
    var digits: seq<byte> := MIN_I32[1..];
    var value := 2147483648;
    assert Value(digits[..3]) == 214 by {
      assert digits[..3][..2] == digits[..2] && digits[..2][..1] == digits[..1] && digits[..1][..0] == [];
      assert Value(digits[..1]) == 2;
      assert Value(digits[..2]) == 21;
    }
    assert Value(digits[..6]) == 214748 by {
      assert digits[..6][..5] == digits[..5] && digits[..5][..4] == digits[..4] && digits[..4][..3] == digits[..3];
      assert Value(digits[..4]) == 2147;
      assert Value(digits[..5]) == 21474;
    }
    assert Value(digits) == value by {
      assert digits[..9][..8] == digits[..8] && digits[..8][..7] == digits[..7] && digits[..7][..6] == digits[..6];
      assert Value(digits[..7]) == 2147483;
      assert Value(digits[..8]) == 21474836;
      assert Value(digits[..9]) == 214748364;
    }
    CanonicalIsNumeral(digits);
  }
}
