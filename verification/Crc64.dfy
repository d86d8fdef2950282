/** crypto/crc64.cpp: the table-driven checksum loops, against the bit-serial
register they speed up, and what the checksum means: it is the remainder of a
division by the generator, it adds, and it detects exactly the differences that
are not multiples of the generator.
*/
module Crc64 {
  import opened Gf2
  import opened Bits
  import opened Crc64Table

  const DEFAULT_SEED: bv64 := 0

  /** The register fed a message bit by bit: no table, no bytes. */
  function BitSerial(s: bv64, w: seq<bool>): bv64
    decreases |w|
  {
    if w == [] then s
    else BitSerial(BitStep(if w[0] then Xor(s, 1) else s), w[1..])
  }

  /** The checksum of data from a seed, as the specification of both loops. */
  function Checksum(seed: bv64, data: seq<byte>): bv64 {
    BitSerial(seed, MessageBits(data))
  }

  /** One turn of the loop. */
  function TableStep(crc: bv64, b: byte): bv64 {
    Entry((crc & 0xff) as byte ^ b) ^ (crc >> 8)
  }

  // ---- The table loop refines the register ----

  lemma {:induction false} WordBitSerial(s: bv64, w: seq<bool>)
    ensures Word(BitSerial(s, w)) == Feed(Word(s), w, G())
    decreases |w|
  {
    if w != [] {
      var t := if w[0] then Xor(s, 1) else s;
      FlipFirst(s, w[0]);
      WordStep(t);
      WordBitSerial(BitStep(t), w[1..]);
    }
  }

  lemma FlipFirst(s: bv64, b: bool)
    ensures Word(if b then Xor(s, 1) else s) == Word(s)[0 := Word(s)[0] != b]
  {
    if b {
      WordXor(s, 1);
      WordOne();
    }
  }

  lemma WordOne()
    ensures Word(1) == [true] + Zeros(63)
  {
    LowBitsZero(63);
    assert Odd(1) && Half(1) == 0;
  }

  /** One table step is eight clockings of the register on the bits of the byte. */
  lemma TableStepRefines(crc: bv64, b: byte)
    ensures TableStep(crc, b) == BitSerial(crc, LowBits(Widen(b), 8))
  {
    var i := (crc & 0xff) as byte ^ b;
    EntryRight(i);
    EightStepsRefine(crc, b, i, Entry(i));
    TableStepNamed(crc, b, i, Entry(i));
  }

  lemma TableStepNamed(crc: bv64, b: byte, i: byte, t: bv64)
    requires i == (crc & 0xff) as byte ^ b && t == Entry(i)
    ensures TableStep(crc, b) == Xor(t, DropByte(crc))
  {
  }

  lemma EightStepsRefine(crc: bv64, b: byte, i: byte, t: bv64)
    requires i == (crc & 0xff) as byte ^ b && t == BitSteps(8, Widen(i))
    ensures Xor(t, DropByte(crc)) == BitSerial(crc, LowBits(Widen(b), 8))
  {
    var w, v, s := LowBits(Widen(b), 8), LowBits(Widen(i), 8), Word(crc);
    IndexBits(crc, b, i);
    StepsOfByte(s, w, v);
    WordOfByte(i);
    WordSteps(8, Widen(i));
    WordDropByte(crc);
    WordXor(t, DropByte(crc));
    FeedWord(s, w, G());
    WordBitSerial(crc, w);
    WordInjective(Xor(t, DropByte(crc)), BitSerial(crc, w));
  }

  lemma IndexBits(crc: bv64, b: byte, i: byte)
    requires i == (crc & 0xff) as byte ^ b
    ensures LowBits(Widen(i), 8) == Add(Word(crc)[..8], LowBits(Widen(b), 8))
  {
    assert Widen(i) == Xor(Widen(LowByte(crc)), Widen(b));
    LowBitsXor(Widen(LowByte(crc)), Widen(b), 8);
    LowByteBits(crc);
    ShiftRightByte(crc);
    LowBitsSplit(crc, 8, 56);
  }

  /** Eight steps act on the low byte through the table and shift the rest. */
  lemma StepsOfByte(s: Poly, w: seq<bool>, v: seq<bool>)
    requires |s| == 64 && |w| == 8 && v == Add(s[..8], w)
    ensures Steps(8, Add(s, w + Zeros(56)), G()) == Add(Steps(8, v + Zeros(56), G()), s[8..] + Zeros(8))
  {
    var low, high := v + Zeros(56), Zeros(8) + s[8..];
    assert Add(s, w + Zeros(56)) == Add(low, high);
    StepsAdditive(8, low, high, G());
    StepsShift(s[8..], 8, G());
  }

  lemma {:induction false} BitSerialAppend(s: bv64, v: seq<bool>, w: seq<bool>)
    ensures BitSerial(s, v + w) == BitSerial(BitSerial(s, v), w)
    decreases |v|
  {
    if v == [] {
      assert v + w == w;
    } else {
      assert (v + w)[1..] == v[1..] + w;
      BitSerialAppend(BitStep(if v[0] then Xor(s, 1) else s), v[1..], w);
    }
  }

  lemma {:induction false} MessageBitsAppend(a: seq<byte>, b: seq<byte>)
    ensures MessageBits(a + b) == MessageBits(a) + MessageBits(b)
  {
    if a == [] {
      assert a + b == b;
    } else {
      assert (a + b)[1..] == a[1..] + b;
      MessageBitsAppend(a[1..], b);
    }
  }

  lemma ChecksumAppend(seed: bv64, a: seq<byte>, b: seq<byte>)
    ensures Checksum(seed, a + b) == Checksum(Checksum(seed, a), b)
  {
    MessageBitsAppend(a, b);
    BitSerialAppend(seed, MessageBits(a), MessageBits(b));
  }

  lemma ChecksumByte(crc: bv64, b: byte)
    ensures Checksum(crc, [b]) == TableStep(crc, b)
  {
    TableStepRefines(crc, b);
    assert MessageBits([b]) == LowBits(Widen(b), 8);
  }

  lemma LoopStep(seed: bv64, data: seq<byte>, i: nat)
    requires i < |data|
    ensures TableStep(Checksum(seed, data[..i]), data[i]) == Checksum(seed, data[..i + 1])
  {
    ChecksumAppend(seed, data[..i], [data[i]]);
    ChecksumByte(Checksum(seed, data[..i]), data[i]);
    assert data[..i + 1] == data[..i] + [data[i]];
  }

  /** The one-shot form. */
  method Crc64OneShot(data: seq<byte>) returns (crc: bv64)
    ensures crc == Checksum(0, data)
  {
    crc := DEFAULT_SEED;
    for i := 0 to |data|
      invariant crc == Checksum(0, data[..i])
    {
      LoopStep(0, data, i);
      crc := TableStep(crc, data[i]);
    }
    assert data[..|data|] == data;
  }

  /** The resumable form. */
  method Crc64Resume(seed: bv64, data: seq<byte>) returns (crc: bv64)
    ensures crc == Checksum(seed, data)
  {
    crc := seed;
    for i := 0 to |data|
      invariant crc == Checksum(seed, data[..i])
    {
      LoopStep(seed, data, i);
      crc := TableStep(crc, data[i]);
    }
    assert data[..|data|] == data;
  }

  // ---- What the checksum is ----

  /** The generator x^64 + ..., all 65 coefficients. */
  ghost function Generator(): (d: Poly)
    ensures |d| == 65 && d[0]
  {
    [true] + G()
  }

  lemma ChecksumDivides(data: seq<byte>)
    ensures IsDivision(MessageBits(data), Quotient(MessageBits(data), G()), Generator(), Word(Checksum(0, data)))
  {
    WordZero(0);
    WordBitSerial(0, MessageBits(data));
    FeedDivides(MessageBits(data), G());
  }

  /** r is what some quotient by the generator leaves of w * x^64. */
  ghost predicate IsRemainder(w: seq<bool>, r: bv64) {
    exists q :: IsDivision(w, q, Generator(), Word(r))
  }

  /** The checksum from seed zero is the remainder of the message times x^64 by
  the generator, and nothing else is. */
  lemma ChecksumIsRemainder(data: seq<byte>, r: bv64)
    ensures Checksum(0, data) == r <==> IsRemainder(MessageBits(data), r)
  {
    var w, c := MessageBits(data), Checksum(0, data);
    ChecksumDivides(data);
    assert IsRemainder(w, c);
    if IsRemainder(w, r) {
      var q :| IsDivision(w, q, Generator(), Word(r));
      RemainderUnique(w, Quotient(w, G()), c, q, r);
    }
  }

  lemma RemainderUnique(w: seq<bool>, q1: Poly, r1: bv64, q2: Poly, r2: bv64)
    requires IsDivision(w, q1, Generator(), Word(r1)) && IsDivision(w, q2, Generator(), Word(r2))
    ensures r1 == r2
  {
    DivisionUnique(w, q1, Word(r1), q2, Word(r2), Generator());
    WordInjective(r1, r2);
  }

  ghost function XorBytes(a: seq<byte>, b: seq<byte>): (c: seq<byte>)
    requires |a| == |b|
    ensures |c| == |a|
  {
    seq(|a|, i requires 0 <= i < |a| => a[i] ^ b[i])
  }

  lemma XorByteBits(a: byte, b: byte)
    ensures LowBits(Widen(a ^ b), 8) == Add(LowBits(Widen(a), 8), LowBits(Widen(b), 8))
  {
    assert Widen(a ^ b) == Xor(Widen(a), Widen(b));
    LowBitsXor(Widen(a), Widen(b), 8);
  }

  lemma {:induction false} XorMessageBits(a: seq<byte>, b: seq<byte>)
    requires |a| == |b|
    ensures MessageBits(XorBytes(a, b)) == Add(MessageBits(a), MessageBits(b))
  {
    if a != [] {
      assert XorBytes(a, b)[1..] == XorBytes(a[1..], b[1..]);
      XorByteBits(a[0], b[0]);
      XorMessageBits(a[1..], b[1..]);
      AddConcat(LowBits(Widen(a[0]), 8), MessageBits(a[1..]), LowBits(Widen(b[0]), 8), MessageBits(b[1..]));
    }
  }

  /** Linearity, in the seed and in the message together. */
  lemma ChecksumLinear(s: bv64, t: bv64, a: seq<byte>, b: seq<byte>)
    requires |a| == |b|
    ensures Checksum(Xor(s, t), XorBytes(a, b)) == Xor(Checksum(s, a), Checksum(t, b))
  {
    var c := XorBytes(a, b);
    var p, q, r := Checksum(s, a), Checksum(t, b), Checksum(Xor(s, t), c);
    XorMessageBits(a, b);
    WordXor(s, t);
    WordBitSerial(s, MessageBits(a));
    WordBitSerial(t, MessageBits(b));
    WordBitSerial(Xor(s, t), MessageBits(c));
    FeedAdditive(Word(s), Word(t), MessageBits(a), MessageBits(b), G());
    WordXor(p, q);
    WordInjective(r, Xor(p, q));
  }

  function ZeroBytes(n: nat): (z: seq<byte>)
    ensures |z| == n
  {
    seq(n, _ => 0)
  }

  /** Checksums of two parts combine, from any seed: shift the first by the length
  of the second. */
  lemma ChecksumCombine(seed: bv64, a: seq<byte>, b: seq<byte>)
    ensures Checksum(seed, a + b) == Xor(Checksum(Checksum(seed, a), ZeroBytes(|b|)), Checksum(0, b))
  {
    var c := Checksum(seed, a);
    ChecksumAppend(seed, a, b);
    ChecksumLinear(c, 0, ZeroBytes(|b|), b);
    assert XorBytes(ZeroBytes(|b|), b) == b;
    assert Xor(c, 0) == c;
  }

  /** A word fed to the register clears it exactly when it equals its contents. */
  lemma ClearedBy(r: Poly, v: seq<bool>)
    requires |r| == |v| == 64
    ensures Feed(r, v, G()) == Zeros(64) <==> r == v
  {
    FeedWord(r, v, G());
    assert v + Zeros(0) == v;
    StepsZero(64, G());
    GeneratorConstantTerm();
    AddSelf(r, v);
    if Feed(r, v, G()) == Zeros(64) {
      StepsInjective(64, Add(r, v), Zeros(64), G());
    }
  }

  lemma LittleEndianExact(c: bv64, w: seq<byte>, n: nat)
    requires |w| == n
    ensures MessageBits(w) == LowBits(c, 8 * n) <==> w == LittleEndian(c, n)
  {
    LittleEndianBits(c, n);
    if MessageBits(w) == LowBits(c, 8 * n) {
      MessageBitsInjective(LittleEndian(c, n), w);
    }
  }

  lemma ResidueFrom(c: bv64, w: seq<byte>)
    requires |w| == 8
    ensures Checksum(c, w) == 0 <==> MessageBits(w) == Word(c)
  {
    WordZero(Checksum(c, w));
    WordBitSerial(c, MessageBits(w));
    ClearedBy(Word(c), MessageBits(w));
  }

  /** Appending the checksum, little-endian, and only that, makes it vanish. */
  lemma ZeroResidue(seed: bv64, m: seq<byte>, w: seq<byte>)
    requires |w| == 8
    ensures Checksum(seed, m + w) == 0 <==> w == LittleEndian(Checksum(seed, m), 8)
  {
    var c := Checksum(seed, m);
    ChecksumAppend(seed, m, w);
    ResidueFrom(c, w);
    LittleEndianExact(c, w, 8);
  }

  lemma ByteInjective(a: byte, b: byte)
    requires LowBits(Widen(a), 8) == LowBits(Widen(b), 8)
    ensures a == b
  {
    WordOfByte(a);
    WordOfByte(b);
    WordInjective(Widen(a), Widen(b));
  }

  lemma {:induction false} MessageBitsInjective(a: seq<byte>, b: seq<byte>)
    requires |a| == |b| && MessageBits(a) == MessageBits(b)
    ensures a == b
  {
    if a != [] {
      assert MessageBits(a)[..8] == LowBits(Widen(a[0]), 8) && MessageBits(b)[..8] == LowBits(Widen(b[0]), 8);
      assert MessageBits(a)[8..] == MessageBits(a[1..]) && MessageBits(b)[8..] == MessageBits(b[1..]);
      ByteInjective(a[0], b[0]);
      MessageBitsInjective(a[1..], b[1..]);
    }
  }

  // ---- What the checksum detects ----

  /** A change of the message goes undetected exactly when the difference is a
  multiple of the generator; the seed plays no part. */
  lemma UndetectedIffMultiple(seed: bv64, a: seq<byte>, b: seq<byte>)
    requires |a| == |b|
    ensures Checksum(seed, a) == Checksum(seed, b) <==>
      IsRemainder(Add(MessageBits(a), MessageBits(b)), 0)
  {
    var c := XorBytes(a, b);
    ChecksumLinear(seed, seed, a, b);
    XorSelf(seed);
    XorSelf(Checksum(seed, a));
    if Xor(Checksum(seed, a), Checksum(seed, b)) == 0 {
      XorDiffers(Checksum(seed, a), Checksum(seed, b));
    }
    XorMessageBits(a, b);
    ChecksumIsRemainder(c, 0);
  }

  /** The messages differ, and only within n consecutive bits from position i. */
  ghost predicate DifferWithin(a: seq<byte>, b: seq<byte>, i: nat, n: nat) {
    && |a| == |b| && i + n <= 8 * |a|
    && MessageBits(a)[..i] == MessageBits(b)[..i]
    && MessageBits(a)[i + n..] == MessageBits(b)[i + n..]
    && a != b
  }

  /** Every burst of at most 64 bits is detected, in messages of any length. */
  lemma BurstDetected(seed: bv64, a: seq<byte>, b: seq<byte>, i: nat, n: nat)
    requires n <= 64 && DifferWithin(a, b, i, n)
    ensures Checksum(seed, a) != Checksum(seed, b)
  {
    var x, y := MessageBits(a), MessageBits(b);
    if Checksum(seed, a) == Checksum(seed, b) {
      WordBitSerial(seed, x);
      WordBitSerial(seed, y);
      BurstInRegister(Word(seed), x, y, i, n);
      MessageBitsInjective(a, b);
    }
  }

  lemma BurstInRegister(s: Poly, x: seq<bool>, y: seq<bool>, i: nat, n: nat)
    requires |s| == 64 && n <= 64 && |x| == |y| && i + n <= |x|
    requires x[..i] == y[..i] && x[i + n..] == y[i + n..]
    requires Feed(s, x, G()) == Feed(s, y, G())
    ensures x == y
  {
    Cut(x, i, n);
    Cut(y, i, n);
    BurstPieces(s, x[..i], x[i..i + n], y[i..i + n], x[i + n..]);
  }

  lemma Cut(x: seq<bool>, i: nat, n: nat)
    requires i + n <= |x|
    ensures x == x[..i] + x[i..i + n] + x[i + n..]
  {
  }

  lemma BurstPieces(s: Poly, before: seq<bool>, x: seq<bool>, y: seq<bool>, after: seq<bool>)
    requires |s| == 64 && |x| == |y| <= 64
    requires Feed(s, before + x + after, G()) == Feed(s, before + y + after, G())
    ensures x == y
  {
    var t := Feed(s, before, G());
    FeedParts(s, before, x, after);
    FeedParts(s, before, y, after);
    GeneratorConstantTerm();
    FeedInjective(Feed(t, x, G()), Feed(t, y, G()), after, G());
    WordsDistinguished(t, x, y);
  }

  lemma FeedParts(s: Poly, x: seq<bool>, y: seq<bool>, z: seq<bool>)
    requires |s| == 64
    ensures Feed(s, x + y + z, G()) == Feed(Feed(Feed(s, x, G()), y, G()), z, G())
  {
    FeedAppend(s, x + y, z, G());
    FeedAppend(s, x, y, G());
  }

  lemma WordsDistinguished(t: Poly, x: seq<bool>, y: seq<bool>)
    requires |t| == 64 && |x| == |y| <= 64 && Feed(t, x, G()) == Feed(t, y, G())
    ensures x == y
  {
    var n := |x|;
    var u, v := Add(t, x + Zeros(64 - n)), Add(t, y + Zeros(64 - n));
    FeedWord(t, x, G());
    FeedWord(t, y, G());
    GeneratorConstantTerm();
    StepsInjective(n, u, v, G());
    AddCancels(t, x, y, Zeros(64 - n));
  }

  lemma AddCancels(t: Poly, x: Poly, y: Poly, z: Poly)
    requires |t| == |x| + |z| && |x| == |y| && Add(t, x + z) == Add(t, y + z)
    ensures x == y
  {
    forall k | 0 <= k < |x|
      ensures x[k] == y[k]
    {
      assert Add(t, x + z)[k] == (t[k] != x[k]) && Add(t, y + z)[k] == (t[k] != y[k]);
    }
  }

  /** The bound is tight: 65 bits, those of the generator, go undetected. */
  lemma BurstOf65Undetected(seed: bv64)
    ensures DifferWithin(ZeroBytes(9), [0x80] + LittleEndian(POLY, 8), 7, 65)
    ensures Checksum(seed, ZeroBytes(9)) == Checksum(seed, [0x80] + LittleEndian(POLY, 8))
  {
    var b := [0x80] + LittleEndian(POLY, 8);
    FirstSevenBits(ZeroBytes(9), b);
    LastBits(ZeroBytes(9), b, 7, 65);
    ChecksumOfGenerator();
    AddedCodeword(seed, b);
  }

  lemma LastBits(a: seq<byte>, b: seq<byte>, i: nat, n: nat)
    requires |a| == |b| && i + n == 8 * |a| && a != b
    requires MessageBits(a)[..i] == MessageBits(b)[..i]
    ensures DifferWithin(a, b, i, n)
  {
  }

  lemma ChecksumOfGenerator()
    ensures Checksum(0, [0x80] + LittleEndian(POLY, 8)) == 0
  {
    ChecksumByte(0, 0x80);
    EntryRight(0x80);
    HighestEntry();
    TableStepNamed(0, 0x80, 0x80, POLY);
    ZeroResidue(0, [0x80], LittleEndian(POLY, 8));
  }

  /** A change by a message of checksum zero is never seen. */
  lemma AddedCodeword(seed: bv64, b: seq<byte>)
    requires Checksum(0, b) == 0
    ensures Checksum(seed, ZeroBytes(|b|)) == Checksum(seed, b)
  {
    var a := ZeroBytes(|b|);
    ChecksumLinear(seed, 0, a, b);
    assert XorBytes(a, b) == b;
    assert Xor(seed, 0) == seed && Xor(Checksum(seed, a), 0) == Checksum(seed, a);
  }

  lemma FirstSevenBits(a: seq<byte>, b: seq<byte>)
    requires a != [] && b != [] && a[0] == 0 && b[0] == 0x80
    ensures MessageBits(a)[..7] == MessageBits(b)[..7]
  {
    LowBitsZero(8);
    assert LowBits(0x80, 8) == [false, false] + LowBits(0x20, 6);
    assert LowBits(0x20, 6) == [false, false] + LowBits(8, 4);
    assert LowBits(8, 4) == [false, false, false, true];
  }

  // ---- What the checksum can be made to be ----

  /** The register before one clocking. */
  function BitBack(t: bv64): bv64 {
    if Top(t) then Double(Xor(t, POLY), true) else Double(t, false)
  }

  lemma TopCleared(t: bv64)
    requires Top(t)
    ensures !Top(Xor(t, POLY)) && Xor(Xor(t, POLY), POLY) == t
  {
  }

  lemma BitStepBack(t: bv64)
    ensures BitStep(BitBack(t)) == t
  {
    if Top(t) {
      TopCleared(t);
      HalfOfDouble(Xor(t, POLY), true);
    } else {
      HalfOfDouble(t, false);
    }
  }

  /** The register before n clockings. */
  function BitsBack(n: nat, t: bv64): bv64
    decreases n, t
  {
    if n == 0 then t else BitBack(BitsBack(n - 1, t))
  }

  lemma {:induction false} BitStepsBack(n: nat, t: bv64)
    ensures BitSteps(n, BitsBack(n, t)) == t
    decreases n
  {
    if n > 0 {
      BitStepBack(BitsBack(n - 1, t));
      BitStepsBack(n - 1, t);
    }
  }

  /** Sixty-four bits are fed as one word. (n stands for 64.) */
  lemma WordFed(n: nat, c: bv64, x: bv64, w: seq<bool>)
    requires n == 64 && w == Word(x)
    ensures BitSerial(c, w) == BitSteps(n, Xor(c, x))
  {
    WordBitSerial(c, w);
    FeedWhole(n, Word(c), w, G());
    WordXor(c, x);
    WordSteps(n, Xor(c, x));
    WordInjective(BitSerial(c, w), BitSteps(n, Xor(c, x)));
  }

  lemma TailFed(n: nat, c: bv64, x: bv64, tail: seq<byte>)
    requires n == 64 && tail == LittleEndian(x, 8)
    ensures Checksum(c, tail) == BitSteps(n, Xor(c, x))
  {
    LittleEndianBits(x, 8);
    WordFed(n, c, x, MessageBits(tail));
  }

  lemma TailUnique(c: bv64, v: seq<byte>, w: seq<byte>)
    requires |v| == |w| == 8 && Checksum(c, v) == Checksum(c, w)
    ensures v == w
  {
    if v != w {
      assert MessageBits(v)[64..] == [] == MessageBits(w)[64..];
      BurstDetected(c, v, w, 0, 64);
    }
  }

  lemma TailExact(n: nat, c: bv64, before: bv64, w: seq<byte>, tail: seq<byte>, target: bv64)
    requires n == 64 && |w| == 8 && BitSteps(n, before) == target && tail == LittleEndian(Xor(c, before), 8)
    ensures Checksum(c, w) == target <==> w == tail
  {
    XorTwice(c, before);
    TailFed(n, c, Xor(c, before), tail);
    if Checksum(c, w) == target {
      TailUnique(c, w, tail);
    }
  }

  /** For every seed, message and target exactly one tail of eight bytes brings the
  checksum to the target. (n stands for 64.) */
  lemma OneTail(n: nat, seed: bv64, m: seq<byte>, w: seq<byte>, target: bv64)
    requires n == 64 && |w| == 8
    ensures Checksum(seed, m + w) == target <==>
      w == LittleEndian(Xor(Checksum(seed, m), BitsBack(n, target)), 8)
  {
    var before := BitsBack(n, target);
    ChecksumAppend(seed, m, w);
    BitStepsBack(n, target);
    TailExact(n, Checksum(seed, m), before, w, LittleEndian(Xor(Checksum(seed, m), before), 8), target);
  }

  /** The seed can be recovered: no two seeds agree on any message. */
  lemma SeedInjective(s: bv64, t: bv64, data: seq<byte>)
    requires Checksum(s, data) == Checksum(t, data)
    ensures s == t
  {
    var w := MessageBits(data);
    WordBitSerial(s, w);
    WordBitSerial(t, w);
    GeneratorConstantTerm();
    FeedInjective(Word(s), Word(t), w, G());
    WordInjective(s, t);
  }

  // ---- The published check value ----

  lemma FirstDigits()
    ensures TableStep(0, 0x31) == 0xfdc17184a9f739fa
    ensures TableStep(0xfdc17184a9f739fa, 0x32) == 0xe10364513a98ed96
    ensures TableStep(0xe10364513a98ed96, 0x33) == 0xd5bcfb814479b1ac
  {
  }

  lemma MiddleDigits()
    ensures TableStep(0xd5bcfb814479b1ac, 0x34) == 0x43593c5dcda521f0
    ensures TableStep(0x43593c5dcda521f0, 0x35) == 0xf0758513239c7e0d
    ensures TableStep(0xf0758513239c7e0d, 0x36) == 0xa3a90925b2ab4903
  {
  }

  lemma LastDigits()
    ensures TableStep(0xa3a90925b2ab4903, 0x37) == 0x47824d362431ad45
    ensures TableStep(0x47824d362431ad45, 0x38) == 0x49ec20b315e86dc2
    ensures TableStep(0x49ec20b315e86dc2, 0x39) == 0xe9c6d914c4b8d9ca
  {
  }

  lemma ChecksumNext(seed: bv64, b: byte, rest: seq<byte>, next: bv64)
    requires TableStep(seed, b) == next
    ensures Checksum(seed, [b] + rest) == Checksum(next, rest)
  {
    ChecksumAppend(seed, [b], rest);
    ChecksumByte(seed, b);
  }

  lemma ChecksumThree(s: bv64, t: bv64, u: bv64, v: bv64, data: seq<byte>)
    requires |data| >= 3
    requires TableStep(s, data[0]) == t && TableStep(t, data[1]) == u && TableStep(u, data[2]) == v
    ensures Checksum(s, data) == Checksum(v, data[3..])
  {
    assert data == [data[0]] + data[1..] && data[1..] == [data[1]] + data[2..] && data[2..] == [data[2]] + data[3..];
    ChecksumNext(s, data[0], data[1..], t);
    ChecksumNext(t, data[1], data[2..], u);
    ChecksumNext(u, data[2], data[3..], v);
  }

  /** The digits "123456789" give the check value of the specification. */
  lemma CheckValue(digits: seq<byte>)
    requires digits == [0x31, 0x32, 0x33, 0x34, 0x35, 0x36, 0x37, 0x38, 0x39]
    ensures Checksum(0, digits) == 0xe9c6d914c4b8d9ca
  {
    FirstDigits();
    MiddleDigits();
    LastDigits();
    ChecksumThree(0, 0xfdc17184a9f739fa, 0xe10364513a98ed96, 0xd5bcfb814479b1ac, digits);
    ChecksumThree(0xd5bcfb814479b1ac, 0x43593c5dcda521f0, 0xf0758513239c7e0d, 0xa3a90925b2ab4903, digits[3..]);
    ChecksumThree(0xa3a90925b2ab4903, 0x47824d362431ad45, 0x49ec20b315e86dc2, 0xe9c6d914c4b8d9ca, digits[6..]);
  }
}
