/** Machine words as bit sequences, least significant bit first: the order in
which a reflected CRC sends them.
*/
module Bits {
  import opened Gf2

  type byte = bv8

  // The word operations under names of their own: the solver reasons about a
  // named operation by its laws, and about an operator bit by bit.

  function Xor(a: bv64, b: bv64): bv64 { a ^ b }

  function Half(s: bv64): bv64 { s >> 1 }

  predicate Odd(s: bv64) { s & 1 == 1 }

  predicate Top(s: bv64) { s >> 63 == 1 }

  /** Shift left by one, with b for the new bit. */
  function Double(s: bv64, b: bool): bv64 { (s << 1) | (if b then 1 else 0) }

  function DropByte(s: bv64): bv64 { s >> 8 }

  function LowByte(s: bv64): byte { (s & 0xff) as byte }

  function Widen(b: byte): bv64 { b as bv64 }

  /** The n least significant bits of s. */
  function LowBits(s: bv64, n: nat): (b: seq<bool>)
    ensures |b| == n
    decreases n, s
  {
    if n == 0 then [] else [Odd(s)] + LowBits(Half(s), n - 1)
  }

  /** All bits of a 64-bit word. */
  function Word(s: bv64): (b: seq<bool>)
    ensures |b| == 64
  {
    LowBits(s, 64)
  }

  /** The bits of a message, byte after byte. */
  function MessageBits(data: seq<byte>): (b: seq<bool>)
    ensures |b| == 8 * |data|
  {
    if data == [] then [] else LowBits(Widen(data[0]), 8) + MessageBits(data[1..])
  }

  /** Shift right by one, n times. */
  ghost function ShiftRight(s: bv64, n: nat): bv64
    decreases n, s
  {
    if n == 0 then s else ShiftRight(Half(s), n - 1)
  }

  /** Shift right by one byte, n times. */
  ghost function DropBytes(s: bv64, n: nat): bv64
    decreases n
  {
    if n == 0 then s else DropBytes(DropByte(s), n - 1)
  }

  // ---- Laws of the word operations ----

  lemma XorParts(a: bv64, b: bv64)
    ensures Half(Xor(a, b)) == Xor(Half(a), Half(b))
    ensures Odd(Xor(a, b)) == (Odd(a) != Odd(b))
  {
  }

  lemma XorSelf(a: bv64)
    ensures Xor(a, a) == 0
  {
  }

  lemma XorDiffers(a: bv64, b: bv64)
    requires Xor(a, b) == 0
    ensures a == b
  {
  }

  lemma XorTwice(a: bv64, b: bv64)
    ensures Xor(a, Xor(a, b)) == b
  {
  }

  lemma SameHalves(a: bv64, b: bv64)
    requires Half(a) == Half(b) && Odd(a) == Odd(b)
    ensures a == b
  {
  }

  lemma HalfOfDouble(s: bv64, b: bool)
    requires !Top(s)
    ensures Half(Double(s, b)) == s && Odd(Double(s, b)) == b
  {
  }

  lemma DropByteHalves(s: bv64)
    ensures DropByte(s) == Half(Half(Half(Half(Half(Half(Half(Half(s))))))))
  {
  }

  lemma DropAllBytes(s: bv64)
    ensures DropBytes(s, 8) == 0
  {
  }

  // ---- Bits of words ----

  lemma LowBitsAdd(a: bv64, b: bv64, c: bv64, n: nat)
    requires n > 0 && Odd(c) == (Odd(a) != Odd(b))
    requires LowBits(Half(c), n - 1) == Add(LowBits(Half(a), n - 1), LowBits(Half(b), n - 1))
    ensures LowBits(c, n) == Add(LowBits(a, n), LowBits(b, n))
  {
  }

  lemma {:induction false} LowBitsXor(a: bv64, b: bv64, n: nat)
    ensures LowBits(Xor(a, b), n) == Add(LowBits(a, n), LowBits(b, n))
    decreases n
  {
    if n > 0 {
      XorParts(a, b);
      LowBitsXor(Half(a), Half(b), n - 1);
      LowBitsAdd(a, b, Xor(a, b), n);
    }
  }

  lemma {:induction false} LowBitsZero(n: nat)
    ensures LowBits(0, n) == Zeros(n)
  {
    if n > 0 {
      LowBitsZero(n - 1);
    }
  }

  lemma {:induction false} LowBitsSplit(s: bv64, m: nat, n: nat)
    ensures LowBits(s, m + n) == LowBits(s, m) + LowBits(ShiftRight(s, m), n)
    decreases m
  {
    if m > 0 {
      LowBitsSplit(Half(s), m - 1, n);
    }
  }

  lemma {:induction false} ShiftRightCompose(s: bv64, m: nat, n: nat)
    ensures ShiftRight(s, m + n) == ShiftRight(ShiftRight(s, m), n)
    decreases m
  {
    if m > 0 {
      ShiftRightCompose(Half(s), m - 1, n);
    }
  }

  lemma ShiftRightByte(s: bv64)
    ensures ShiftRight(s, 8) == DropByte(s)
  {
    var a := Half(Half(s));
    var b := Half(Half(a));
    var c := Half(Half(b));
    assert ShiftRight(s, 8) == ShiftRight(a, 6) == ShiftRight(b, 4) == ShiftRight(c, 2);
    assert ShiftRight(c, 2) == ShiftRight(Half(c), 1) == ShiftRight(Half(Half(c)), 0);
    DropByteHalves(s);
  }

  lemma {:induction false} ShiftRightBytes(s: bv64, n: nat)
    ensures ShiftRight(s, 8 * n) == DropBytes(s, n)
    decreases n
  {
    if n > 0 {
      ShiftRightCompose(s, 8, 8 * (n - 1));
      ShiftRightByte(s);
      ShiftRightBytes(DropByte(s), n - 1);
    }
  }

  /** Nothing is left of a word shifted out altogether. */
  lemma ShiftRightAll(s: bv64)
    ensures ShiftRight(s, 64) == 0
  {
    ShiftRightBytes(s, 8);
    DropAllBytes(s);
  }

  lemma LowBitsParts(a: bv64, b: bv64, n: nat)
    requires n > 0
    ensures LowBits(a, n) == LowBits(b, n) <==> Odd(a) == Odd(b) && LowBits(Half(a), n - 1) == LowBits(Half(b), n - 1)
  {
    if LowBits(a, n) == LowBits(b, n) {
      assert LowBits(a, n)[0] == LowBits(b, n)[0];
      assert LowBits(Half(a), n - 1) == LowBits(a, n)[1..] == LowBits(b, n)[1..] == LowBits(Half(b), n - 1);
    }
  }

  lemma {:induction false} LowBitsInjective(a: bv64, b: bv64, n: nat)
    requires LowBits(a, n) == LowBits(b, n) && ShiftRight(a, n) == ShiftRight(b, n)
    ensures a == b
    decreases n
  {
    if n > 0 {
      LowBitsParts(a, b, n);
      LowBitsInjective(Half(a), Half(b), n - 1);
      SameHalves(a, b);
    }
  }

  /** A word is determined by its bits. */
  lemma WordInjective(a: bv64, b: bv64)
    requires Word(a) == Word(b)
    ensures a == b
  {
    ShiftRightAll(a);
    ShiftRightAll(b);
    LowBitsInjective(a, b, 64);
  }

  lemma WordZero(s: bv64)
    ensures s == 0 <==> Word(s) == Zeros(64)
  {
    LowBitsZero(64);
    if Word(s) == Zeros(64) {
      WordInjective(s, 0);
    }
  }

  lemma WordXor(a: bv64, b: bv64)
    ensures Word(Xor(a, b)) == Add(Word(a), Word(b))
  {
    LowBitsXor(a, b, 64);
  }

  lemma WordHalf(s: bv64)
    ensures Word(Half(s)) == Word(s)[1..] + [false]
  {
    LowBitsSplit(Half(s), 63, 1);
    ShiftRightAll(s);
    LowBitsZero(1);
  }

  lemma WordDropByte(s: bv64)
    ensures Word(DropByte(s)) == Word(s)[8..] + Zeros(8)
  {
    ShiftRightByte(s);
    LowBitsSplit(s, 8, 56);
    LowBitsSplit(DropByte(s), 56, 8);
    ShiftRightAll(s);
    ShiftRightCompose(s, 8, 56);
    LowBitsZero(8);
  }

  /** The bits of a byte, widened to a word. */
  lemma WordOfByte(b: byte)
    ensures Word(Widen(b)) == LowBits(Widen(b), 8) + Zeros(56)
  {
    ShiftRightByte(Widen(b));
    LowBitsSplit(Widen(b), 8, 56);
    assert DropByte(Widen(b)) == 0;
    LowBitsZero(56);
  }

  function And(a: bv64, b: bv64): bv64 { a & b }

  lemma AndParts(a: bv64, b: bv64)
    ensures Half(And(a, b)) == And(Half(a), Half(b))
    ensures Odd(And(a, b)) == (Odd(a) && Odd(b))
  {
  }

  lemma OnesParts(mask: bv64, n: nat)
    requires n > 0 && LowBits(mask, n) == seq(n, _ => true)
    ensures Odd(mask) && LowBits(Half(mask), n - 1) == seq(n - 1, _ => true)
  {
    assert LowBits(mask, n)[0];
    assert LowBits(Half(mask), n - 1) == LowBits(mask, n)[1..] == seq(n - 1, _ => true);
  }

  /** Masking with ones does not change the bits it covers. */
  lemma {:induction false} MaskedLowBits(s: bv64, mask: bv64, n: nat)
    requires LowBits(mask, n) == seq(n, _ => true)
    ensures LowBits(And(s, mask), n) == LowBits(s, n)
    decreases n
  {
    if n > 0 {
      AndParts(s, mask);
      OnesParts(mask, n);
      MaskedLowBits(Half(s), Half(mask), n - 1);
      LowBitsParts(s, And(s, mask), n);
    }
  }

  lemma EightOnes()
    ensures LowBits(0xff, 8) == seq(8, _ => true)
  {
    assert LowBits(0xf, 4) == [true, true] + LowBits(3, 2) == [true, true, true, true];
    assert LowBits(0x3f, 6) == [true, true] + LowBits(0xf, 4);
    assert LowBits(0xff, 8) == [true, true] + LowBits(0x3f, 6);
  }

  /** Truncation to a byte keeps the low eight bits. */
  lemma LowByteBits(s: bv64)
    ensures LowBits(Widen(LowByte(s)), 8) == LowBits(s, 8)
  {
    assert Widen(LowByte(s)) == And(s, 0xff);
    EightOnes();
    MaskedLowBits(s, 0xff, 8);
  }

  // ---- Little-endian bytes ----

  function LittleEndian(s: bv64, n: nat): (b: seq<byte>)
    ensures |b| == n
    decreases n, s
  {
    if n == 0 then [] else [LowByte(s)] + LittleEndian(DropByte(s), n - 1)
  }

  lemma {:induction false} LittleEndianBits(s: bv64, n: nat)
    ensures MessageBits(LittleEndian(s, n)) == LowBits(s, 8 * n)
    decreases n
  {
    if n > 0 {
      LittleEndianBits(DropByte(s), n - 1);
      MessageBitsFirst(LowByte(s), LittleEndian(DropByte(s), n - 1));
      LowBitsFirstByte(s, 8 * (n - 1));
    }
  }

  lemma MessageBitsFirst(b: byte, rest: seq<byte>)
    ensures MessageBits([b] + rest) == LowBits(Widen(b), 8) + MessageBits(rest)
  {
    assert ([b] + rest)[1..] == rest;
  }

  lemma LowBitsFirstByte(s: bv64, n: nat)
    ensures LowBits(s, 8 + n) == LowBits(Widen(LowByte(s)), 8) + LowBits(DropByte(s), n)
  {
    LowBitsSplit(s, 8, n);
    LowByteBits(s);
    ShiftRightByte(s);
  }

  // ---- Bit reversal ----

  /** The n low bits of v, highest first: the coefficients of a polynomial as the
  hexadecimal number v writes them. */
  function HighestFirst(v: bv64, n: nat): (b: seq<bool>)
    ensures |b| == n
    decreases n, v
  {
    if n == 0 then [] else HighestFirst(Half(v), n - 1) + [Odd(v)]
  }

  lemma HighestFirstLast(v: bv64, n: nat)
    ensures HighestFirst(v, n + 1) == HighestFirst(Half(v), n) + [Odd(v)]
  {
  }

  lemma {:induction false} HighestFirstSplit(v: bv64, m: nat, n: nat)
    ensures HighestFirst(v, m + n) == HighestFirst(ShiftRight(v, n), m) + HighestFirst(v, n)
    decreases n
  {
    if n == 0 {
      assert HighestFirst(v, n) == [];
    } else {
      HighestFirstSplit(Half(v), m, n - 1);
      HighestFirstLast(v, m + n - 1);
      HighestFirstLast(v, n - 1);
      var high, low := HighestFirst(ShiftRight(v, n), m), HighestFirst(Half(v), n - 1);
      assert high + low + [Odd(v)] == high + (low + [Odd(v)]);
    }
  }

  /** Reversal, one byte at a time. */
  lemma ReflectByte(p: bv64, q: bv64, v: bv64, t: bv64, n: nat)
    requires q == DropByte(p) && t == DropBytes(v, n)
    requires LowBits(p, 8) == HighestFirst(t, 8)
    requires LowBits(q, 8 * n) == HighestFirst(v, 8 * n)
    ensures LowBits(p, 8 * (n + 1)) == HighestFirst(v, 8 * (n + 1))
  {
    LowBitsSplit(p, 8, 8 * n);
    ShiftRightByte(p);
    HighestFirstSplit(v, 8, 8 * n);
    ShiftRightBytes(v, n);
  }
}
