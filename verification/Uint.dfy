/** Fixed-width unsigned integers as naturals, with the bitwise operations of C++
defined on their binary digits.
*/
module Uint {

  const TWO_TO_THE_64: nat := 0x1_0000_0000_0000_0000

  type u8 = x: nat | x < 256
  type u64 = x: nat | x < TWO_TO_THE_64

  function Pow2(k: nat): (p: nat)
    ensures p > 0
  {
    if k == 0 then 1 else 2 * Pow2(k - 1)
  }

  function And(a: nat, b: nat): (c: nat)
    ensures c <= a && c <= b
  {
    if a == 0 || b == 0 then 0
    else (if a % 2 == 1 && b % 2 == 1 then 1 else 0) + 2 * And(a / 2, b / 2)
  }

  function Or(a: nat, b: nat): nat {
    if a == 0 then b else if b == 0 then a
    else (if a % 2 == 1 || b % 2 == 1 then 1 else 0) + 2 * Or(a / 2, b / 2)
  }

  /** Left shift of a 64-bit value; C++ defines it for k < 64 only. */
  function ShiftLeft64(a: u64, k: nat): u64
    requires k < 64
  {
    a * Pow2(k) % TWO_TO_THE_64
  }

  function ShiftRight(a: nat, k: nat): (b: nat)
    ensures b <= a
    decreases k, a
  {
    if k == 0 then a else ShiftRight(a / 2, k - 1)
  }

  lemma {:induction false} Pow2Add(j: nat, k: nat)
    ensures Pow2(j + k) == Pow2(j) * Pow2(k)
  {
    if j > 0 {
      Pow2Add(j - 1, k);
    }
  }

  lemma Pow2Monotonic(j: nat, k: nat)
    requires j <= k
    ensures Pow2(j) <= Pow2(k)
  {
    if j < k {
      Pow2Monotonic(j, k - 1);
    }
  }

  lemma Pow2Of64()
    ensures Pow2(7) == 128 && Pow2(63) == 0x8000_0000_0000_0000 && Pow2(64) == TWO_TO_THE_64
  {
    assert Pow2(8) == 256;
    Pow2Add(8, 8);
    Pow2Add(16, 16);
    Pow2Add(32, 32);
    assert Pow2(64) == 2 * Pow2(63);
  }

  /** Values with no digit in common: the bitwise sum is the sum. */
  lemma {:induction false} OrDisjoint(a: nat, b: nat, k: nat)
    requires a < Pow2(k)
    ensures Or(a, b * Pow2(k)) == a + b * Pow2(k)
  {
    if k > 0 && a > 0 && b > 0 {
      var c := b * Pow2(k - 1);
      assert b * Pow2(k) == 2 * c;
      OrDisjoint(a / 2, b, k - 1);
    }
  }

  lemma AndOdd(a: nat, mask: nat)
    requires mask % 2 == 1
    ensures And(a, mask) == a % 2 + 2 * And(a / 2, mask / 2)
  {
  }

  /** A mask of ones takes the value modulo a power of two. */
  lemma {:induction false} AndOnes(a: nat, k: nat, mask: nat, m: nat)
    requires m == Pow2(k) && mask == m - 1
    ensures And(a, mask) == a % m
    decreases k
  {
    if k > 0 {
      var p := Pow2(k - 1);
      assert m == 2 * p;
      AndOdd(a, mask);
      AndOnes(a / 2, k - 1, p - 1, p);
      ModTwice(a, p);
    }
  }

  lemma ModTwice(a: nat, p: nat)
    requires p > 0
    ensures a % (2 * p) == a % 2 + 2 * (a / 2 % p)
  {
    var h := a / 2;
    var q, r := h / p, h % p;
    assert a == (2 * p) * q + (a % 2 + 2 * r);
    ModIs(a, 2 * p, q, a % 2 + 2 * r);
  }

  lemma ModIs(a: int, m: nat, q: int, r: nat)
    requires r < m && a == m * q + r
    ensures a % m == r && a / m == q
  {
    var d := a / m - q;
    assert m * d == r - a % m;
    MulSmall(m, d);
  }

  lemma MulNext(n: nat, c: nat)
    ensures (n + 1) * c == n * c + c
  {
  }

  lemma MulOverAdd(a: int, b: int, c: int)
    ensures a * (b + c) == a * b + a * c
  {
  }

  lemma MulRegroup(a: nat, b: nat, c: nat)
    ensures a * b * c == a * (b * c)
  {
  }

  lemma MulNonnegative(m: nat, q: int)
    requires q >= 0
    ensures m * q >= 0
  {
  }

  lemma MulSmall(m: nat, d: int)
    requires -(m as int) < m * d < m
    ensures d == 0
  {
  }

  /** A common factor comes out of a remainder. */
  lemma ModFactor(a: nat, m: nat, p: nat)
    requires m > 0 && p > 0
    ensures m * p > 0 && a * p % (m * p) == a % m * p
  {
    var q, r := a / m, a % m;
    assert a == m * q + r;
    Distribute(m, q, r, p);
    Bounded(r, m, p);
    ModIs(a * p, m * p, q, r * p);
  }

  lemma Distribute(m: nat, q: nat, r: nat, p: nat)
    ensures (m * q + r) * p == (m * p) * q + r * p
  {
  }

  lemma MulOrder(a: nat, b: nat, p: nat)
    requires a <= b
    ensures a * p <= b * p
  {
  }

  lemma Bounded(r: nat, m: nat, p: nat)
    requires r < m && p > 0
    ensures 0 <= r * p && r * p + p <= m * p
  {
    MulOrder(r + 1, m, p);
    assert (r + 1) * p == r * p + p;
  }

  /** Adding below the factor does not disturb the remainder. */
  lemma ModFactorPlus(low: nat, a: nat, m: nat, p: nat)
    requires m > 0 && low < p
    ensures m * p > 0 && (low + a * p) % (m * p) == low + a % m * p
  {
    var q, r := a / m, a % m;
    assert a == m * q + r;
    Distribute(m, q, r, p);
    Bounded(r, m, p);
    ModIs(low + a * p, m * p, q, low + r * p);
  }

  /** Or-ing a shifted value above a smaller one adds it, modulo the width:
  shifting loses exactly the digits that leave the word. */
  lemma OrShifted(result: u64, a: u64, k: nat)
    requires k < 64 && result < Pow2(k)
    ensures Or(result, ShiftLeft64(a, k)) == (result + a * Pow2(k)) % TWO_TO_THE_64
  {
    WidthSplits(k);
    OrDisjoint(result, a % Pow2(64 - k), k);
    ModOfParts(result, a, Pow2(64 - k), Pow2(k), TWO_TO_THE_64);
  }

  lemma WidthSplits(k: nat)
    requires k < 64
    ensures Pow2(64 - k) * Pow2(k) == TWO_TO_THE_64
  {
    Pow2Add(64 - k, k);
    Pow2Of64();
  }

  lemma ModOfParts(low: nat, a: nat, m: nat, p: nat, width: nat)
    requires m > 0 && low < p && m * p == width
    ensures width > 0 && a * p % width == a % m * p && (low + a * p) % width == low + a % m * p
  {
    ModFactor(a, m, p);
    ModFactorPlus(low, a, m, p);
  }

  lemma AndDigit(a: nat, b: nat)
    ensures And(a, b) == (if a % 2 == 1 && b % 2 == 1 then 1 else 0) + 2 * And(a / 2, b / 2)
  {
  }

  /** The mask has k ones, then a zero. */
  ghost predicate OnesThenZero(mask: nat, k: nat)
    decreases k
  {
    if k == 0 then mask % 2 == 0 else mask % 2 == 1 && OnesThenZero(mask / 2, k - 1)
  }

  lemma {:induction false} AndClearsTop(a: nat, mask: nat, k: nat)
    requires a < 2 * Pow2(k) && OnesThenZero(mask, k)
    ensures And(a, mask) == a % Pow2(k)
    decreases k
  {
    AndDigit(a, mask);
    if k > 0 {
      AndClearsTop(a / 2, mask / 2, k - 1);
      ModTwice(a, Pow2(k - 1));
    }
  }

  lemma {:induction false} AndPower(a: nat, k: nat, p: nat)
    requires p == Pow2(k) && a < 2 * p
    ensures And(a, p) == if a >= p then p else 0
    decreases k
  {
    AndDigit(a, p);
    if k > 0 {
      AndPower(a / 2, k - 1, Pow2(k - 1));
    }
  }

  lemma DivDiv(a: nat, b: nat, c: nat)
    requires b > 0 && c > 0
    ensures b * c > 0 && a / (b * c) == a / b / c
  {
    var q, r := a / b / c, a / b % c;
    MulRegroup(b, c, q);
    MulOverAdd(b, c * q, r);
    Bounded(r, c, b);
    assert a == (b * c) * q + (b * r + a % b);
    ModIs(a, b * c, q, b * r + a % b);
  }

  lemma DivTwice(a: nat, p: nat)
    requires p > 0
    ensures a / (2 * p) == a / 2 / p
  {
    var h := a / 2;
    var q, r := h / p, h % p;
    assert a == (2 * p) * q + (a % 2 + 2 * r);
    ModIs(a, 2 * p, q, a % 2 + 2 * r);
  }

  lemma {:induction false} ShiftRightIs(a: nat, k: nat)
    ensures ShiftRight(a, k) == a / Pow2(k)
    decreases k
  {
    if k > 0 {
      ShiftRightIs(a / 2, k - 1);
      DivTwice(a, Pow2(k - 1));
    }
  }
}
