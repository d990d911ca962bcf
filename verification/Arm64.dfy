/**
 * The arm64 immediate loader: instruction words appended to the code buffer in little-endian
 * order, and what executing them leaves in the registers. A shift by k is a multiplication or
 * division by two to the k, a mask of low bits a remainder, and an `or` of fields that do not
 * overlap (lemma DisjointFields) a sum.
 */
module Arm64 {
  import opened Bytes
  import opened Options

  // ----- The code buffer ------------------------------------------------------------------

  /** The low `k` bytes of a word, least significant first. */
  function LittleEndian(word: nat, k: nat): (bytes: seq<byte>)
    ensures |bytes| == k
  {
    if k == 0 then [] else [word % 0x100] + LittleEndian(word / 0x100, k - 1)
  }

  function WordOf(bytes: seq<byte>): nat {
    if bytes == [] then 0 else bytes[0] + 0x100 * WordOf(bytes[1..])
  }

  lemma {:induction false} WordReadsBack(word: nat, k: nat)
    requires word < Power256(k)
    ensures WordOf(LittleEndian(word, k)) == word
  {
    if k != 0 {
      WordReadsBack(word / 0x100, k - 1);
    }
  }

  lemma {:induction false} WordSplits(bytes: seq<byte>)
    ensures WordOf(bytes) < Power256(|bytes|)
    ensures LittleEndian(WordOf(bytes), |bytes|) == bytes
  {
    if bytes != [] {
      WordSplits(bytes[1..]);
      assert WordOf(bytes) % 0x100 == bytes[0] && WordOf(bytes) / 0x100 == WordOf(bytes[1..]);
    }
  }

  function Power256(k: nat): (p: nat)
    ensures p > 0
  {
    if k == 0 then 1 else 0x100 * Power256(k - 1)
  }

  /** The words a stretch of code holds; a trailing partial word is dropped. */
  function WordsOf(code: seq<byte>): seq<nat> {
    if |code| < 4 then [] else [WordOf(code[..4])] + WordsOf(code[4..])
  }

  function Encoded(words: seq<u32>): seq<byte> {
    if words == [] then [] else LittleEndian(words[0], 4) + Encoded(words[1..])
  }

  lemma FourBytes(word: u32)
    ensures LittleEndian(word, 4) ==
            [word % 0x100, word / 0x100 % 0x100, word / 0x1_0000 % 0x100, word / 0x100_0000 % 0x100]
  {
    var w1 := word / 0x100;
    var w2 := w1 / 0x100;
    var w3 := w2 / 0x100;
    assert LittleEndian(w3, 1) == [w3 % 0x100] + LittleEndian(w3 / 0x100, 0);
    assert LittleEndian(w2, 2) == [w2 % 0x100] + LittleEndian(w3, 1);
    assert LittleEndian(w1, 3) == [w1 % 0x100] + LittleEndian(w2, 2);
  }

  lemma FourBytesJoin(b: seq<byte>)
    requires |b| == 4
    ensures WordOf(b) == b[0] as int + 0x100 * (b[1] as int) + 0x1_0000 * (b[2] as int) + 0x100_0000 * (b[3] as int)
  {
    assert b[1..][1..] == b[2..] && b[2..][1..] == b[3..] && b[3..][1..] == [];
    assert WordOf(b[3..]) == b[3];
    assert WordOf(b[2..]) == b[2] + 0x100 * WordOf(b[3..]);
    assert WordOf(b[1..]) == b[1] + 0x100 * WordOf(b[2..]);
  }

  /** Any sequence of appended words reads back word for word. */
  lemma {:induction false} WordsReadBack(words: seq<u32>)
    ensures |Encoded(words)| == 4 * |words|
    ensures WordsOf(Encoded(words)) == words
  {
    if words != [] {
      WordsReadBack(words[1..]);
      WordReadsBack(words[0], 4);
      assert Power256(4) == 0x1_0000_0000 by {
        assert Power256(2) == 0x1_0000;
      }
      assert Encoded(words)[4..] == Encoded(words[1..]);
      assert Encoded(words)[..4] == LittleEndian(words[0], 4);
    }
  }

  lemma {:induction false} WordsOfConcat(a: seq<byte>, b: seq<byte>)
    requires |a| % 4 == 0
    ensures WordsOf(a + b) == WordsOf(a) + WordsOf(b)
  {
    if a == [] {
      assert a + b == b;
    } else {
      var head, rest := a[..4], a[4..];
      WordsOfConcat(rest, b);
      assert a == head + rest && a + b == head + (rest + b);
      WordsOfStep(head, rest);
      WordsOfStep(head, rest + b);
      assert [WordOf(head)] + (WordsOf(rest) + WordsOf(b)) == [WordOf(head)] + WordsOf(rest) + WordsOf(b);
    }
  }

  lemma WordsOfStep(head: seq<byte>, rest: seq<byte>)
    requires |head| == 4
    ensures WordsOf(head + rest) == [WordOf(head)] + WordsOf(rest)
  {
    assert (head + rest)[..4] == head && (head + rest)[4..] == rest;
  }

  class CodeBuffer {
    var code: seq<byte>
    const capacity: nat

    constructor (capacity: nat)
      ensures code == [] && this.capacity == capacity
    {
      this.capacity := capacity;
      code := [];
    }

    /** All the bytes are appended, or none of them. */
    method AppendBytes(bytes: seq<byte>) returns (status: int)
      modifies this`code
      ensures status == if |old(code)| + |bytes| > capacity then -1 else 0
      ensures code == if status == 0 then old(code) + bytes else old(code)
    {
      if |code| + |bytes| > capacity {
        return -1;
      }
      code := code + bytes;
      return 0;
    }
  }

  method AppendU32Le(ctx: CodeBuffer?, word: u32) returns (status: int)
    modifies ctx
    ensures status == if ctx == null || |old(ctx.code)| + 4 > ctx.capacity then -1 else 0
    ensures ctx != null ==> ctx.code == old(ctx.code) + if status == 0 then Encoded([word]) else []
  {
    if ctx == null {
      return -1;
    }
    var bytes: seq<byte> := [word % 0x100, word / 0x100 % 0x100, word / 0x1_0000 % 0x100, word / 0x100_0000 % 0x100];
    FourBytes(word);
    assert Encoded([word]) == LittleEndian(word, 4) + Encoded([]);
    status := ctx.AppendBytes(bytes);
  }

  /** Reads the word at a byte position; without a buffer, and at a negative position, it reads as zero. */
  method ReadU32Le(ctx: CodeBuffer?, pos: int) returns (word: nat)
    requires ctx != null ==> pos + 4 <= |ctx.code|
    ensures if ctx == null || pos < 0 then word == 0 else LittleEndian(word, 4) == ctx.code[pos..pos + 4]
  {
    if ctx == null || pos < 0 {
      return 0;
    }
    var b := ctx.code[pos..pos + 4];
    WordSplits(b);
    FourBytesJoin(b);
    return b[0] as int + 0x100 * (b[1] as int) + 0x1_0000 * (b[2] as int) + 0x100_0000 * (b[3] as int);
  }

  /** The bitwise or of two numbers. */
  function BitOr(a: nat, b: nat): nat
    decreases a + b
  {
    if a == 0 then b
    else if b == 0 then a
    else (if a % 2 == 1 || b % 2 == 1 then 1 else 0) + 2 * BitOr(a / 2, b / 2)
  }

  function ShiftLeft(a: nat, k: nat): nat {
    if k == 0 then a else 2 * ShiftLeft(a, k - 1)
  }

  /** Fields that share no bit are joined by an or as by a sum. */
  lemma {:induction false} DisjointFields(high: nat, low: nat, k: nat)
    requires low < ShiftLeft(1, k)
    ensures BitOr(ShiftLeft(high, k), low) == ShiftLeft(high, k) + low
  {
    if k > 0 {
      DisjointFields(high, low / 2, k - 1);
    }
  }

  lemma {:induction false} ShiftTwice(a: nat, j: nat, k: nat)
    ensures ShiftLeft(a, j + k) == ShiftLeft(ShiftLeft(a, j), k)
  {
    if k > 0 {
      ShiftTwice(a, j, k - 1);
    }
  }

  lemma ShiftSeven(a: nat)
    ensures ShiftLeft(a, 7) == 128 * a
  {
    assert ShiftLeft(a, 1) == 2 * a;
    assert ShiftLeft(a, 2) == 4 * a;
    assert ShiftLeft(a, 3) == 8 * a;
    assert ShiftLeft(a, 4) == 16 * a;
    assert ShiftLeft(a, 5) == 32 * a;
    assert ShiftLeft(a, 6) == 64 * a;
  }

  lemma ShiftTwentyOne(a: nat)
    ensures ShiftLeft(a, 21) == 0x20_0000 * a
  {
    ShiftSeven(a);
    ShiftSeven(128 * a);
    ShiftSeven(128 * (128 * a));
    ShiftTwice(a, 7, 7);
    ShiftTwice(a, 14, 7);
  }

  /** The opcodes leave the low 21 bits to the immediate. */
  lemma OpcodeOrImmediate(opcode: u32, imm16: u32)
    requires opcode % 0x20_0000 == 0 && imm16 < 0x1_0000
    ensures BitOr(opcode, 32 * imm16) == opcode + 32 * imm16
  {
    ShiftTwentyOne(1);
    ShiftTwentyOne(opcode / 0x20_0000);
    DisjointFields(opcode / 0x20_0000, 32 * imm16, 21);
  }

  /** An opcode with its immediate in bits 20-5, put together by a bitwise or. */
  method MoveWord(opcode: u32, imm16: u32) returns (word: u32)
    requires opcode <= 0x72a0_0000 && opcode % 0x20_0000 == 0 && imm16 < 0x1_0000
    ensures word == opcode + 32 * imm16
  {
    OpcodeOrImmediate(opcode, imm16);
    return BitOr(opcode, 32 * imm16);
  }

  /** MOVZ w0, #lo, then MOVK w0, #hi, lsl #16 unless `hi` is zero. */
  method MovImm32ToW0(ctx: CodeBuffer?, imm: u32) returns (status: int)
    modifies ctx
    ensures status == if ctx == null || |old(ctx.code)| + |Encoded(MovImm32(imm))| > ctx.capacity then -1 else 0
    ensures status == 0 ==> ctx.code == old(ctx.code) + Encoded(MovImm32(imm))
    ensures status == -1 && ctx != null ==>
              ctx.code == old(ctx.code) + if |old(ctx.code)| + 4 > ctx.capacity then [] else Encoded([MovImm32(imm)[0]])
  {
    PairWords(0x72a0_0000, imm);
    var lo := imm % 0x1_0000;
    var hi := imm / 0x1_0000 % 0x1_0000;
    var first := MoveWord(0x5280_0000, lo);
    status := AppendU32Le(ctx, first);
    if status != 0 {
      return -1;
    }
    if hi != 0 {
      var second := MoveWord(0x72a0_0000, hi);
      status := AppendU32Le(ctx, second);
      if status != 0 {
        return -1;
      }
    }
    return 0;
  }

  /** The surface twin: decimal opcodes, the second with its shift field clear. */
  method SurfaceMovImm32ToW0(ctx: CodeBuffer?, imm: u32) returns (status: int)
    modifies ctx
    ensures status ==
            if ctx == null || |old(ctx.code)| + |Encoded(SurfaceMovImm32(imm))| > ctx.capacity then -1 else 0
    ensures status == 0 ==> ctx.code == old(ctx.code) + Encoded(SurfaceMovImm32(imm))
    ensures status == -1 && ctx != null ==>
              ctx.code ==
              old(ctx.code) + if |old(ctx.code)| + 4 > ctx.capacity then [] else Encoded([SurfaceMovImm32(imm)[0]])
  {
    PairWords(1920991232, imm);
    var lo := imm % 0x1_0000;
    var hi := imm / 0x1_0000 % 0x1_0000;
    var first := MoveWord(1384120320, lo);
    status := AppendU32Le(ctx, first);
    if status != 0 {
      return -1;
    }
    if hi != 0 {
      var second := MoveWord(1920991232, hi);
      status := AppendU32Le(ctx, second);
      if status != 0 {
        return -1;
      }
    }
    return 0;
  }

  /** The words of a load whose second instruction has the base opcode `second`. */
  function Pair(second: u32, imm: u32): seq<u32>
    requires second <= 0x72a0_0000
  {
    var lo := imm % 0x1_0000;
    var hi := imm / 0x1_0000;
    [0x5280_0000 + 32 * lo] + if hi == 0 then [] else [second + 32 * hi]
  }

  function MovImm32(imm: u32): seq<u32> {
    Pair(0x72a0_0000, imm)
  }

  function SurfaceMovImm32(imm: u32): seq<u32> {
    Pair(0x7280_0000, imm)
  }

  /** The words of a pair and their bytes. */
  lemma PairWords(second: u32, imm: u32)
    requires second <= 0x72a0_0000
    ensures var lo, hi, words := imm % 0x1_0000, imm / 0x1_0000 % 0x1_0000, Pair(second, imm);
            && words[0] == 0x5280_0000 + 32 * lo
            && |words| == (if hi == 0 then 1 else 2)
            && (hi != 0 ==> words[1] == second + 32 * hi)
            && Encoded(words) == Encoded([words[0]]) + (if hi == 0 then [] else Encoded([words[1]]))
            && |Encoded([words[0]])| == 4 && (hi != 0 ==> |Encoded([words[1]])| == 4)
  {
    EncodedEach(Pair(second, imm));
  }

  lemma EncodedEach(words: seq<u32>)
    requires 1 <= |words| <= 2
    ensures Encoded(words) == Encoded([words[0]]) + if |words| == 1 then [] else Encoded([words[1]])
    ensures |Encoded([words[0]])| == 4 && (|words| == 2 ==> |Encoded([words[1]])| == 4)
  {
    assert [words[0]][1..] == [];
    if |words| == 2 {
      assert words[1..] == [words[1]] && [words[1]][1..] == [];
    }
  }

  // ----- The machine: section C6.2 of the Arm Architecture Reference Manual (DDI 0487) -------

  /** The 32-bit views of the general-purpose registers; number 31 is the zero register. */
  type Registers = r: seq<u32> | |r| == 31 witness seq(31, _ => 0)

  function Set(r: Registers, d: nat, v: u32): Registers {
    if d < 31 then r[d := v] else r
  }

  function Get(r: Registers, d: nat): u32 {
    if d < 31 then r[d] else 0
  }

  /**
   * Wide-immediate moves on 32-bit registers: bits 31-23 select MOVZ or MOVK, bits 22-21 the
   * half-word, of which only the first two exist in this form, bits 20-5 the immediate and bits
   * 4-0 the destination. Any other word is outside this machine.
   */
  function Execute(word: nat, r: Registers): Option<Registers> {
    var opcode, half := word / 0x80_0000, word / 0x20_0000 % 4;
    var imm16, d := word / 32 % 0x1_0000, word % 32;
    if half > 1 then None
    else if opcode == 0xA5 then
      Some(Set(r, d, if half == 0 then imm16 else 0x1_0000 * imm16))
    else if opcode == 0xE5 then
      var was := Get(r, d);
      Some(Set(r, d, if half == 0 then was - was % 0x1_0000 + imm16 else was % 0x1_0000 + 0x1_0000 * imm16))
    else None
  }

  function Run(words: seq<nat>, r: Registers): Option<Registers> {
    if words == [] then Some(r)
    else match Execute(words[0], r) {
      case None => None
      case Some(r') => Run(words[1..], r')
    }
  }

  lemma {:induction false} RunConcat(a: seq<nat>, b: seq<nat>, r: Registers)
    ensures Run(a + b, r) == match Run(a, r) { case None => None case Some(r') => Run(b, r') }
  {
    if a == [] {
      assert a + b == b;
    } else {
      assert (a + b)[1..] == a[1..] + b;
      match Execute(a[0], r) {
        case None =>
        case Some(r') => RunConcat(a[1..], b, r');
      }
    }
  }

  lemma ExecuteMovz(lo: u32, r: Registers)
    requires lo < 0x1_0000
    ensures Execute(0x5280_0000 + 32 * lo, r) == Some(r[0 := lo])
  {
  }

  lemma ExecuteMovk(second: u32, hi: u32, r: Registers)
    requires hi < 0x1_0000 && (second == 0x72a0_0000 || second == 0x7280_0000)
    ensures Execute(second + 32 * hi, r) ==
            Some(r[0 := if second == 0x72a0_0000 then r[0] % 0x1_0000 + 0x1_0000 * hi
                        else r[0] - r[0] % 0x1_0000 + hi])
  {
    var w := second + 32 * hi;
    assert w / 0x80_0000 == 0xE5 && w / 32 % 0x1_0000 == hi && w % 32 == 0;
    assert w / 0x20_0000 % 4 == if second == 0x72a0_0000 then 1 else 0;
  }

  lemma RunOne(w: nat, r: Registers)
    ensures Run([w], r) == Execute(w, r)
  {
    assert [w][1..] == [];
  }

  lemma RunTwo(w1: nat, w2: nat, r: Registers, r1: Registers)
    requires Execute(w1, r) == Some(r1)
    ensures Run([w1] + [w2], r) == Execute(w2, r1)
  {
    RunOne(w1, r);
    RunOne(w2, r1);
    RunConcat([w1], [w2], r);
  }

  /** The second word on the register that the first one has set to `lo`. */
  lemma ExecuteSecond(second: u32, lo: u32, hi: u32, v: u32, r: Registers)
    requires lo < 0x1_0000 && hi < 0x1_0000 && (second == 0x72a0_0000 || second == 0x7280_0000)
    requires v == if second == 0x72a0_0000 then lo + 0x1_0000 * hi else hi
    ensures Execute(second + 32 * hi, r[0 := lo]) == Some(r[0 := v])
  {
    ExecuteMovk(second, hi, r[0 := lo]);
    assert r[0 := lo][0 := v] == r[0 := v];
  }

  lemma RunPair(second: u32, imm: u32, r: Registers)
    requires second == 0x72a0_0000 || second == 0x7280_0000
    ensures Run(Pair(second, imm), r) ==
            Some(r[0 := if imm < 0x1_0000 || second == 0x72a0_0000 then imm else imm / 0x1_0000])
  {
    var lo, hi := imm % 0x1_0000, imm / 0x1_0000;
    var w1, w2 := 0x5280_0000 + 32 * lo, second + 32 * hi;
    ExecuteMovz(lo, r);
    if hi == 0 {
      assert Pair(second, imm) == [w1];
      RunOne(w1, r);
    } else {
      assert Pair(second, imm) == [w1] + [w2];
      ExecuteSecond(second, lo, hi, if second == 0x72a0_0000 then imm else hi, r);
      RunTwo(w1, w2, r, r[0 := lo]);
    }
  }

  /** Appended to any program, the emitted bytes load the constant and touch no other register. */
  lemma MovLoadsImmediate(code: seq<byte>, imm: u32, r: Registers, r': Registers)
    requires |code| % 4 == 0 && Run(WordsOf(code), r) == Some(r')
    ensures Run(WordsOf(code + Encoded(MovImm32(imm))), r) == Some(r'[0 := imm])
    ensures |Encoded(MovImm32(imm))| == if imm < 0x1_0000 then 4 else 8
  {
    WordsOfConcat(code, Encoded(MovImm32(imm)));
    WordsReadBack(MovImm32(imm));
    RunConcat(WordsOf(code), MovImm32(imm), r);
    RunPair(0x72a0_0000, imm, r');
  }

  /** The surface twin leaves the constant exactly when its upper half is zero, else that half. */
  lemma SurfaceMovLoadsImmediateIff(code: seq<byte>, imm: u32, r: Registers, r': Registers)
    requires |code| % 4 == 0 && Run(WordsOf(code), r) == Some(r')
    ensures var end := Run(WordsOf(code + Encoded(SurfaceMovImm32(imm))), r);
            && (end == Some(r'[0 := imm]) <==> imm / 0x1_0000 == 0)
            && (imm / 0x1_0000 != 0 ==> end == Some(r'[0 := imm / 0x1_0000]))
  {
    WordsOfConcat(code, Encoded(SurfaceMovImm32(imm)));
    WordsReadBack(SurfaceMovImm32(imm));
    RunConcat(WordsOf(code), SurfaceMovImm32(imm), r);
    RunPair(0x7280_0000, imm, r');
    assert r'[0 := imm][0] == imm && r'[0 := imm / 0x1_0000][0] == imm / 0x1_0000;
  }

  /** The two emitters agree byte for byte on the same constants, and on no others. */
  lemma SurfaceAgreesIff(imm: u32)
    ensures Encoded(SurfaceMovImm32(imm)) == Encoded(MovImm32(imm)) <==> imm / 0x1_0000 == 0
  {
    WordsReadBack(SurfaceMovImm32(imm));
    WordsReadBack(MovImm32(imm));
    if imm / 0x1_0000 != 0 {
      assert MovImm32(imm)[1] != SurfaceMovImm32(imm)[1];
    }
  }
}
