/** utils/varint.h: unsigned LEB128, section 7.6 of the DWARF Debugging
Information Format Version 5.
*/
module Varint {
  import opened Uint

  /** What decoding yields: a value and the bytes it took, nothing when the input
  ends first, or, when an eleventh byte would be shifted by 70 bits, behaviour
  that C++ leaves undefined. */
  datatype Decoded = Value(value: u64, read: nat) | NoValue | Undefined

  // ---- Meaning of byte sequences ----

  /** The base-128 number of the payloads, least significant first. */
  function Sum(bytes: seq<u8>): nat {
    if bytes == [] then 0 else bytes[0] % 128 + 128 * Sum(bytes[1..])
  }

  /** The number of leading bytes that have the continuation bit. */
  function Continuations(bytes: seq<u8>): (n: nat)
    ensures n <= |bytes|
    ensures forall i | 0 <= i < n :: bytes[i] >= 128
    ensures n < |bytes| ==> bytes[n] < 128
  {
    if bytes == [] || bytes[0] < 128 then 0 else 1 + Continuations(bytes[1..])
  }

  function Decode(bytes: seq<u8>): Decoded {
    var n := Continuations(bytes);
    if n == |bytes| then (if n <= 10 then NoValue else Undefined)
    else if n < 10 then Value(Sum(bytes[..n + 1]) % TWO_TO_THE_64, n + 1)
    else Undefined
  }

  /** The shortest base-128 form: digits, all but the last marked. */
  function Encode(v: nat): (bytes: seq<u8>)
    ensures bytes != []
  {
    if v < 128 then [v] else [v % 128 + 128] + Encode(v / 128)
  }

  // ---- The loops ----

  lemma AndByte(val: nat)
    ensures And(val, 0xFF) == val % 256
  {
    assert Pow2(8) == 2 * Pow2(7);
    Pow2Of64();
    AndOnes(val, 8, 0xFF, 256);
  }

  lemma MarkedLowByte(val: nat)
    ensures Or(And(val, 0xFF), 0x80) == val % 128 + 128
  {
    AndByte(val);
    SplitByte(val);
    OrTopBit(val % 128, val / 128 % 2);
  }

  lemma SplitByte(val: nat)
    ensures val % 256 == val % 128 + 128 * (val / 128 % 2)
  {
  }

  lemma OrTopBit(lo: nat, hi: nat)
    requires lo < 128 && hi < 2
    ensures Or(lo + 128 * hi, 0x80) == lo + 128
  {
    if hi == 0 {
      Pow2Of64();
      OrDisjoint(lo, 1, 7);
    } else {
      OrIdempotent(lo, 7);
    }
  }

  lemma {:induction false} OrIdempotent(lo: nat, k: nat)
    requires lo < Pow2(k)
    ensures Or(lo + Pow2(k), Pow2(k)) == lo + Pow2(k)
  {
    if k > 0 {
      OrIdempotent(lo / 2, k - 1);
      assert (lo + Pow2(k)) / 2 == lo / 2 + Pow2(k - 1);
    }
  }

  lemma LowByteOf(v: nat)
    requires v < 128
    ensures And(v, 0xFF) == v
  {
    AndByte(v);
  }

  /** What one turn of the encoding loop emits and keeps. */
  lemma EncodeStep(result: seq<u8>, v: nat)
    requires v >= 128
    ensures Or(And(v, 0xFF), 0x80) < 256 && ShiftRight(v, 7) < v
    ensures result + Encode(v) == result + [Or(And(v, 0xFF), 0x80)] + Encode(ShiftRight(v, 7))
  {
    MarkedLowByte(v);
    ShiftRightIs(v, 7);
    Pow2Of64();
  }

  method EncodeVaruint(val: u64) returns (result: seq<u8>)
    ensures result == Encode(val)
  {
    result := [];
    var v: u64 := val;
    while v >= 0x80
      invariant Encode(val) == result + Encode(v)
    {
      EncodeStep(result, v);
      result := result + [Or(And(v, 0xFF), 0x80)];
      v := ShiftRight(v, 7);
    }
    LowByteOf(v);
    result := result + [And(v, 0xFF)];
  }

  lemma {:induction false} SumAppend(a: seq<u8>, b: u8)
    ensures Sum(a + [b]) == Sum(a) + b % 128 * Pow2(7 * |a|)
  {
    if a == [] {
      assert a + [b] == [b];
    } else {
      assert (a + [b])[1..] == a[1..] + [b];
      SumAppend(a[1..], b);
      Pow2Add(7, 7 * |a[1..]|);
      Pow2Of64();
      var p := Pow2(7 * |a[1..]|);
      assert Pow2(7 * |a|) == 128 * p;
      assert b % 128 * (128 * p) == 128 * (b % 128 * p);
    }
  }

  lemma {:induction false} SumBound(a: seq<u8>)
    ensures Sum(a) < Pow2(7 * |a|)
  {
    if a != [] {
      SumBound(a[1..]);
      Pow2Add(7, 7 * |a[1..]|);
      Pow2Of64();
    }
  }

  /** One payload, shifted into place above the value so far. */
  lemma PayloadAdded(bytes: seq<u8>, read: nat, result: u64)
    requires read < 10 && read < |bytes| && result == Sum(bytes[..read])
    ensures Or(result, ShiftLeft64(And(bytes[read], 0xFFFF_FF7F), read * 7)) == Sum(bytes[..read + 1]) % TWO_TO_THE_64
  {
    var payload := bytes[read] % 128;
    ClearTopBit(bytes[read]);
    SumBound(bytes[..read]);
    OrShifted(result, payload, 7 * read);
    assert bytes[..read + 1] == bytes[..read] + [bytes[read]];
    SumAppend(bytes[..read], bytes[read]);
  }

  lemma ClearTopBit(b: u8)
    ensures And(b, 0xFFFF_FF7F) == b % 128
  {
    Pow2Of64();
    AndClearsTop(b, 0xFFFF_FF7F, 7);
  }

  lemma TestTopBit(b: u8)
    ensures (And(b, 0x80) == 0) == (b < 128)
  {
    Pow2Of64();
    AndPower(b, 7, 128);
  }

  method DecodeVaruint(bytes: seq<u8>) returns (r: Decoded)
    ensures r == Decode(bytes)
  {
    var result: u64 := 0;
    for read := 0 to |bytes|
      invariant read <= 10
      invariant read <= Continuations(bytes)
      invariant read < 10 ==> result == Sum(bytes[..read])
    {
      if read * 7 >= 64 {
        return Undefined;
      }
      var current := bytes[read];
      PayloadAdded(bytes, read, result);
      TestTopBit(current);
      result := Or(result, ShiftLeft64(And(current, 0xFFFF_FF7F), read * 7));
      if And(current, 0x80) == 0 {
        return Value(result, read + 1);
      }
      NoWrapYet(bytes, read + 1);
    }
    return NoValue;
  }

  /** Nine payloads fill at most 63 bits. */
  lemma NoWrapYet(bytes: seq<u8>, n: nat)
    requires n <= |bytes|
    ensures n < 10 ==> Sum(bytes[..n]) % TWO_TO_THE_64 == Sum(bytes[..n])
  {
    if n < 10 {
      SumBound(bytes[..n]);
      Pow2Monotonic(7 * n, 64);
      Pow2Of64();
    }
  }

  // ---- Round trips and streams ----

  lemma {:induction false} EncodeSum(v: nat)
    ensures Sum(Encode(v)) == v
  {
    if v >= 128 {
      EncodeSum(v / 128);
    }
  }

  /** Every byte of an encoding but the last is marked. */
  lemma {:induction false} EncodeContinuations(v: nat, suffix: seq<u8>)
    ensures Continuations(Encode(v) + suffix) == |Encode(v)| - 1
    ensures |Encode(v) + suffix| > |Encode(v)| - 1
  {
    if v >= 128 {
      EncodeContinuations(v / 128, suffix);
      assert (Encode(v) + suffix)[1..] == Encode(v / 128) + suffix;
    }
  }

  /** Byte i is digit i in base 128, with the continuation bit on all but the last. */
  lemma {:induction false} EncodeDigits(v: nat, i: nat)
    requires i < |Encode(v)|
    ensures Encode(v)[i] == v / Pow2(7 * i) % 128 + (if i + 1 < |Encode(v)| then 128 else 0)
    decreases i
  {
    if i > 0 {
      EncodeDigits(v / 128, i - 1);
      DigitPlace(v, i);
    }
  }

  lemma DigitPlace(v: nat, i: nat)
    requires i > 0
    ensures v / Pow2(7 * i) == v / 128 / Pow2(7 * (i - 1))
  {
    Pow2Add(7, 7 * (i - 1));
    Pow2Of64();
    DivDiv(v, 128, Pow2(7 * (i - 1)));
  }

  /** An encoding has as many bytes as the value has base-128 digits. */
  lemma {:induction false} EncodeLength(v: nat, n: nat)
    requires n >= 1
    ensures |Encode(v)| <= n <==> v < Pow2(7 * n)
  {
    Pow2Of64();
    if n == 1 {
    } else {
      Pow2Add(7, 7 * (n - 1));
      assert v < 128 ==> v < Pow2(7 * n);
      EncodeLength(v / 128, n - 1);
    }
  }

  lemma EncodeAtMostTen(v: u64)
    ensures 1 <= |Encode(v)| <= 10
  {
    EncodeLength(v, 10);
    Pow2Of64();
    Pow2Monotonic(64, 70);
  }

  lemma DecodeTerminated(e: seq<u8>, suffix: seq<u8>, v: u64)
    requires 1 <= |e| <= 10 && Continuations(e + suffix) == |e| - 1 && Sum(e) == v
    ensures Decode(e + suffix) == Value(v, |e|)
  {
    assert (e + suffix)[..|e|] == e;
  }

  /** Decoding takes exactly one encoding off the front. */
  lemma DecodeEncode(v: u64, suffix: seq<u8>)
    ensures Decode(Encode(v) + suffix) == Value(v, |Encode(v)|)
  {
    EncodeContinuations(v, suffix);
    EncodeAtMostTen(v);
    EncodeSum(v);
    DecodeTerminated(Encode(v), suffix, v);
  }

  /** No encoding is a proper prefix of another. */
  lemma EncodePrefixFree(v: u64, w: u64)
    requires Encode(v) <= Encode(w)
    ensures v == w
  {
    var rest := Encode(w)[|Encode(v)|..];
    assert Encode(w) == Encode(v) + rest && Encode(w) + [] == Encode(w);
    DecodeEncode(v, rest);
    DecodeEncode(w, []);
  }

  function EncodeAll(vs: seq<u64>): seq<u8> {
    if vs == [] then [] else Encode(vs[0]) + EncodeAll(vs[1..])
  }

  datatype Stream = Stream(values: seq<u64>, lengths: seq<nat>, rest: seq<u8>) | Broken

  /** Decode n values one after another. */
  function DecodeMany(n: nat, bytes: seq<u8>): Stream {
    if n == 0 then Stream([], [], bytes)
    else match Decode(bytes)
      case Value(v, read) =>
        assert read <= |bytes|;
        (match DecodeMany(n - 1, bytes[read..])
         case Stream(vs, lengths, rest) => Stream([v] + vs, [read] + lengths, rest)
         case Broken => Broken)
      case _ => Broken
  }

  function Lengths(vs: seq<u64>): seq<nat> {
    if vs == [] then [] else [|Encode(vs[0])|] + Lengths(vs[1..])
  }

  /** A stream of encodings decodes to its values, with their lengths, and leaves
  what follows untouched. */
  lemma {:induction false} DecodeStream(vs: seq<u64>, suffix: seq<u8>)
    ensures DecodeMany(|vs|, EncodeAll(vs) + suffix) == Stream(vs, Lengths(vs), suffix)
  {
    if vs == [] {
      assert EncodeAll(vs) + suffix == suffix;
    } else {
      DecodeStream(vs[1..], suffix);
      StreamNext(vs[0], vs[1..], suffix);
      assert vs == [vs[0]] + vs[1..];
    }
  }

  lemma EncodeAllFirst(v: u64, vs: seq<u64>, suffix: seq<u8>)
    ensures EncodeAll([v] + vs) + suffix == Encode(v) + (EncodeAll(vs) + suffix)
    ensures Lengths([v] + vs) == [|Encode(v)|] + Lengths(vs)
  {
    assert ([v] + vs)[1..] == vs;
  }

  lemma StreamNext(v: u64, vs: seq<u64>, suffix: seq<u8>)
    requires DecodeMany(|vs|, EncodeAll(vs) + suffix) == Stream(vs, Lengths(vs), suffix)
    ensures DecodeMany(|vs| + 1, EncodeAll([v] + vs) + suffix) == Stream([v] + vs, Lengths([v] + vs), suffix)
  {
    var rest := EncodeAll(vs) + suffix;
    EncodeAllFirst(v, vs, suffix);
    DecodeEncode(v, rest);
    DecodeFirst(|vs|, Encode(v), rest, v, vs, Lengths(vs), suffix);
  }

  lemma DecodeFirst(n: nat, e: seq<u8>, rest: seq<u8>, v: u64, vs: seq<u64>, lengths: seq<nat>, left: seq<u8>)
    requires Decode(e + rest) == Value(v, |e|) && DecodeMany(n, rest) == Stream(vs, lengths, left)
    ensures DecodeMany(n + 1, e + rest) == Stream([v] + vs, [|e|] + lengths, left)
  {
    assert (e + rest)[|e|..] == rest;
  }

  lemma FirstUnique(v: u64, w: u64, s: seq<u8>, t: seq<u8>)
    requires Encode(v) + s == Encode(w) + t
    ensures v == w && s == t
  {
    DecodeEncode(v, s);
    DecodeEncode(w, t);
    assert s == (Encode(v) + s)[|Encode(v)|..] == (Encode(w) + t)[|Encode(w)|..] == t;
  }

  /** When the same bytes begin with the encodings of two lists, the shorter list
  begins the longer one, and what follows it encodes the rest. */
  lemma {:induction false} StreamsUnique(vs: seq<u64>, ws: seq<u64>, s: seq<u8>, t: seq<u8>)
    requires |vs| <= |ws| && EncodeAll(vs) + s == EncodeAll(ws) + t
    ensures vs == ws[..|vs|] && s == EncodeAll(ws[|vs|..]) + t
    decreases |vs|
  {
    if vs == [] {
      assert EncodeAll(vs) + s == s && ws[0..] == ws;
    } else {
      EncodeAllFirst(vs[0], vs[1..], s);
      EncodeAllFirst(ws[0], ws[1..], t);
      assert vs == [vs[0]] + vs[1..] && ws == [ws[0]] + ws[1..];
      FirstUnique(vs[0], ws[0], EncodeAll(vs[1..]) + s, EncodeAll(ws[1..]) + t);
      StreamsUnique(vs[1..], ws[1..], s, t);
      assert ws[1..][|vs| - 1..] == ws[|vs|..];
    }
  }

  lemma EncodeAllEmpty(vs: seq<u64>)
    ensures EncodeAll(vs) == [] <==> vs == []
  {
  }

  lemma ShorterStream(vs: seq<u64>, ws: seq<u64>)
    requires |vs| <= |ws| && EncodeAll(vs) == EncodeAll(ws)
    ensures vs == ws
  {
    StreamsUnique(vs, ws, [], []);
    EncodeAllEmpty(ws[|vs|..]);
    assert ws == ws[..|vs|] + ws[|vs|..];
  }

  /** Lists of any lengths with equal concatenated encodings are equal. */
  lemma EncodeAllInjective(vs: seq<u64>, ws: seq<u64>)
    requires EncodeAll(vs) == EncodeAll(ws)
    ensures vs == ws
  {
    if |vs| <= |ws| {
      ShorterStream(vs, ws);
    } else {
      ShorterStream(ws, vs);
    }
  }

  // ---- Canonical forms ----

  /** One number from a marked run: its last byte is below 128, the rest are not. */
  lemma {:induction false} CanonicalForm(bytes: seq<u8>)
    requires bytes != [] && Continuations(bytes) == |bytes| - 1
    ensures Encode(Sum(bytes)) == bytes <==> |bytes| == 1 || bytes[|bytes| - 1] != 0
  {
    if |bytes| == 1 {
      assert Sum(bytes) == bytes[0];
    } else {
      CanonicalForm(bytes[1..]);
      CanonicalTail(bytes[0], bytes[1..]);
      assert bytes == [bytes[0]] + bytes[1..];
    }
  }

  lemma CanonicalTail(b: u8, tail: seq<u8>)
    requires b >= 128 && tail != [] && tail[|tail| - 1] < 128
    requires Encode(Sum(tail)) == tail <==> |tail| == 1 || tail[|tail| - 1] != 0
    ensures Encode(Sum([b] + tail)) == [b] + tail <==> tail[|tail| - 1] != 0
  {
    var s := Sum(tail);
    assert Sum([b] + tail) == b % 128 + 128 * s;
    LowDigit(b, s);
    if s == 0 {
      ZeroSum(tail);
    } else {
      EncodeMore(b % 128 + 128 * s);
      if |tail| == 1 {
        assert tail[0] == s;
      }
    }
  }

  lemma LowDigit(b: u8, s: nat)
    requires b >= 128
    ensures (b % 128 + 128 * s) / 128 == s && (b % 128 + 128 * s) % 128 + 128 == b
  {
  }

  lemma EncodeMore(n: nat)
    requires n >= 128
    ensures Encode(n) == [n % 128 + 128] + Encode(n / 128)
  {
  }

  lemma {:induction false} ZeroSum(bytes: seq<u8>)
    requires bytes != [] && bytes[|bytes| - 1] < 128 && Sum(bytes) == 0
    ensures bytes[|bytes| - 1] == 0
  {
    if |bytes| > 1 {
      ZeroSum(bytes[1..]);
    }
  }

  lemma CanonicalUsed(used: seq<u8>, v: u64)
    requires 1 <= |used| <= 10 && Continuations(used) == |used| - 1 && v == Sum(used) % TWO_TO_THE_64
    ensures |Encode(v)| <= |used|
    ensures Encode(v) == used <==> (|used| == 1 || used[|used| - 1] != 0) && (|used| == 10 ==> used[9] <= 1)
  {
    var s := Sum(used);
    SumBound(used);
    assert v <= s;
    EncodeLength(v, |used|);
    CanonicalForm(used);
    EncodeSum(v);
    NothingLost(used);
  }

  /** The width loses digits exactly when a tenth byte exceeds 1. */
  lemma NothingLost(used: seq<u8>)
    requires 1 <= |used| <= 10 && used[|used| - 1] < 128
    ensures Sum(used) % TWO_TO_THE_64 == Sum(used) <==> (|used| == 10 ==> used[9] <= 1)
  {
    if |used| < 10 {
      assert used[..|used|] == used;
      NoWrapYet(used, |used|);
    } else {
      TenthByte(used);
    }
  }

  /** Re-encoding what was decoded is never longer, and gives the same bytes
  exactly when they had no padding and lost no digit to the width. */
  lemma DecodeCanonical(bytes: seq<u8>)
    requires Decode(bytes).Value?
    ensures var Value(v, n) := Decode(bytes);
      && 1 <= n <= 10 && n <= |bytes|
      && |Encode(v)| <= n
      && (Encode(v) == bytes[..n] <==> (n == 1 || bytes[n - 1] != 0) && (n == 10 ==> bytes[9] <= 1))
  {
    var Value(v, n) := Decode(bytes);
    PrefixContinuations(bytes, n);
    CanonicalUsed(bytes[..n], v);
  }

  lemma {:induction false} PrefixContinuations(bytes: seq<u8>, n: nat)
    requires 1 <= n <= |bytes| && Continuations(bytes) == n - 1
    ensures Continuations(bytes[..n]) == n - 1
  {
    if n > 1 {
      assert bytes[..n][1..] == bytes[1..][..n - 1];
      PrefixContinuations(bytes[1..], n - 1);
    }
  }

  /** Ten payloads fit in 64 bits exactly when the tenth is 0 or 1. */
  lemma TenthByte(used: seq<u8>)
    requires |used| == 10 && used[9] < 128
    ensures Sum(used) < TWO_TO_THE_64 <==> used[9] <= 1
  {
    assert used == used[..9] + [used[9]];
    SumAppend(used[..9], used[9]);
    SumBound(used[..9]);
    Pow2Of64();
  }
}
