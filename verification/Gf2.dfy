/** Polynomials over GF(2), and the shift register that divides by one.

A polynomial is the sequence of its coefficients, highest degree first, so that
the bits of a message in the order they are sent are already a polynomial and
appending `false` multiplies by x. Addition is taken between sequences of one
length.
*/
module Gf2 {

  type Poly = seq<bool>

  function Zeros(n: nat): (z: Poly)
    ensures |z| == n && forall i | 0 <= i < n :: !z[i]
  {
    seq(n, _ => false)
  }

  function Add(a: Poly, b: Poly): (c: Poly)
    requires |a| == |b|
    ensures |c| == |a| && forall i | 0 <= i < |c| :: c[i] == (a[i] != b[i])
  {
    seq(|a|, i requires 0 <= i < |a| => a[i] != b[i])
  }

  lemma AddConcat(a1: Poly, a2: Poly, b1: Poly, b2: Poly)
    requires |a1| == |b1| && |a2| == |b2|
    ensures Add(a1 + a2, b1 + b2) == Add(a1, b1) + Add(a2, b2)
  {
  }

  /** The coefficient of the product q * d at position k, counted from the
  highest: the sum over i of q[i] * d[k - i]. */
  ghost predicate Product(q: Poly, d: Poly, k: int)
    decreases |q|
  {
    if q == [] then false
    else
      var last := |q| - 1;
      Product(q[..last], d, k) != (q[last] && last <= k < last + |d| && d[k - last])
  }

  lemma ProductNext(q: Poly, c: bool, d: Poly, k: int)
    ensures Product(q + [c], d, k) == (Product(q, d, k) != (c && |q| <= k < |q| + |d| && d[k - |q|]))
  {
    assert (q + [c])[..|q|] == q;
  }

  lemma {:induction false} ProductBeyond(q: Poly, d: Poly, k: int)
    requires k >= |q| + |d| - 1
    ensures !Product(q, d, k)
    decreases |q|
  {
    if q != [] {
      ProductBeyond(q[..|q| - 1], d, k);
    }
  }

  /** The leading coefficients of a product by a monic divisor determine q. */
  lemma {:induction false} ProductInjective(q1: Poly, q2: Poly, d: Poly)
    requires d != [] && d[0] && |q1| == |q2|
    requires forall k | 0 <= k < |q1| :: Product(q1, d, k) == Product(q2, d, k)
    ensures q1 == q2
    decreases |q1|
  {
    if q1 != [] {
      var last := |q1| - 1;
      var p1, p2 := q1[..last], q2[..last];
      assert forall k | 0 <= k < last ::
        Product(q1, d, k) == Product(p1, d, k) && Product(q2, d, k) == Product(p2, d, k);
      ProductInjective(p1, p2, d);
      assert Product(q1, d, last) == Product(q2, d, last);
      assert q1 == p1 + [q1[last]] && q2 == p2 + [q2[last]];
    }
  }

  /** q and r are the quotient and the remainder of w * x^n by the divisor d of
  degree n: coefficient by coefficient, q * d == w * x^n + r with deg r < n. */
  ghost predicate IsDivision(w: Poly, q: Poly, d: Poly, r: Poly) {
    && |q| == |w| && |d| == |r| + 1
    && (forall k | 0 <= k < |w| :: Product(q, d, k) == w[k])
    && (forall k | 0 <= k < |r| :: Product(q, d, |w| + k) == r[k])
  }

  lemma DivisionUnique(w: Poly, q1: Poly, r1: Poly, q2: Poly, r2: Poly, d: Poly)
    requires d != [] && d[0] && IsDivision(w, q1, d, r1) && IsDivision(w, q2, d, r2)
    ensures q1 == q2 && r1 == r2
  {
    ProductInjective(q1, q2, d);
    forall k | 0 <= k < |r1|
      ensures r1[k] == r2[k]
    {
      assert Product(q1, d, |w| + k) == r1[k];
    }
  }

  // ---- The shift register ----

  /** Multiply the register by x, and reduce by the monic polynomial whose other
  coefficients are g. */
  function Step(r: Poly, g: Poly): (r': Poly)
    requires 0 < |r| == |g|
    ensures |r'| == |r|
  {
    var shifted := r[1..] + [false];
    if r[0] then Add(shifted, g) else shifted
  }

  lemma StepAt(r: Poly, g: Poly, k: nat)
    requires k < |r| == |g|
    ensures Step(r, g)[k] == ((k < |r| - 1 && r[k + 1]) != (r[0] && g[k]))
  {
  }

  function Steps(n: nat, r: Poly, g: Poly): (r': Poly)
    requires 0 < |r| == |g|
    ensures |r'| == |r|
  {
    if n == 0 then r else Steps(n - 1, Step(r, g), g)
  }

  /** Feed message bits to the register, one at a time, each added at the top. */
  function Feed(r: Poly, w: seq<bool>, g: Poly): (r': Poly)
    requires 0 < |r| == |g|
    ensures |r'| == |r|
    decreases |w|
  {
    if w == [] then r
    else Feed(Step(r[0 := r[0] != w[0]], g), w[1..], g)
  }

  lemma {:induction false} FeedAppend(r: Poly, v: seq<bool>, w: seq<bool>, g: Poly)
    requires 0 < |r| == |g|
    ensures Feed(r, v + w, g) == Feed(Feed(r, v, g), w, g)
    decreases |v|
  {
    if v == [] {
      assert v + w == w;
    } else {
      assert (v + w)[0] == v[0] && (v + w)[1..] == v[1..] + w;
      FeedAppend(Step(r[0 := r[0] != v[0]], g), v[1..], w, g);
    }
  }

  /** The quotient bits that the register shifts out. */
  ghost function Quotient(w: seq<bool>, g: Poly): (q: Poly)
    requires g != []
    ensures |q| == |w|
  {
    if w == [] then []
    else
      var last := |w| - 1;
      Quotient(w[..last], g) + [Feed(Zeros(|g|), w[..last], g)[0] != w[last]]
  }

  /** Started from zero, the register holds the remainder of w * x^n. */
  lemma {:induction false} FeedDivides(w: seq<bool>, g: Poly)
    requires g != []
    ensures IsDivision(w, Quotient(w, g), [true] + g, Feed(Zeros(|g|), w, g))
  {
    var d, z := [true] + g, Zeros(|g|);
    if w == [] {
    } else {
      var last := |w| - 1;
      var v, b := w[..last], w[last];
      assert w == v + [b];
      FeedDivides(v, g);
      var q, r := Quotient(v, g), Feed(z, v, g);
      FeedAppend(z, v, [b], g);
      DivideStep(v, b, q, r, g);
      assert Quotient(w, g) == q + [r[0] != b];
      assert Feed(r, [b], g) == Step(r[0 := r[0] != b], g) by {
        assert [b][1..] == [];
      }
    }
  }

  /** One more message bit keeps the division identity. */
  lemma DivideStep(v: Poly, b: bool, q: Poly, r: Poly, g: Poly)
    requires 0 < |r| == |g|
    requires IsDivision(v, q, [true] + g, r)
    ensures IsDivision(v + [b], q + [r[0] != b], [true] + g, Step(r[0 := r[0] != b], g))
  {
    var d, m, n := [true] + g, |v|, |g|;
    var c := r[0] != b;
    var s := Step(r[0 := c], g);
    forall k | 0 <= k < m + 1
      ensures Product(q + [c], d, k) == (v + [b])[k]
    {
      ProductNext(q, c, d, k);
      if k == m {
        assert Product(q, d, m + 0) == r[0];
      }
    }
    forall k | 0 <= k < n
      ensures Product(q + [c], d, m + 1 + k) == s[k]
    {
      ProductNext(q, c, d, m + 1 + k);
      StepAt(r[0 := c], g, k);
      if k < n - 1 {
        assert Product(q, d, m + (k + 1)) == r[k + 1];
      } else {
        ProductBeyond(q, d, m + 1 + k);
      }
    }
    assert |v + [b]| == m + 1;
  }

  // ---- Linearity and reversibility of the register ----

  lemma StepAdditive(a: Poly, b: Poly, g: Poly)
    requires 0 < |a| == |b| == |g|
    ensures Step(Add(a, b), g) == Add(Step(a, g), Step(b, g))
  {
  }

  lemma {:induction false} StepsAdditive(n: nat, a: Poly, b: Poly, g: Poly)
    requires 0 < |a| == |b| == |g|
    ensures Steps(n, Add(a, b), g) == Add(Steps(n, a, g), Steps(n, b, g))
  {
    if n > 0 {
      StepAdditive(a, b, g);
      StepsAdditive(n - 1, Step(a, g), Step(b, g), g);
    }
  }

  lemma {:induction false} FeedAdditive(r1: Poly, r2: Poly, w1: seq<bool>, w2: seq<bool>, g: Poly)
    requires 0 < |r1| == |r2| == |g| && |w1| == |w2|
    ensures Feed(Add(r1, r2), Add(w1, w2), g) == Add(Feed(r1, w1, g), Feed(r2, w2, g))
    decreases |w1|
  {
    if w1 != [] {
      var s1, s2 := r1[0 := r1[0] != w1[0]], r2[0 := r2[0] != w2[0]];
      assert Add(r1, r2)[0 := Add(r1, r2)[0] != Add(w1, w2)[0]] == Add(s1, s2);
      assert Add(w1, w2)[1..] == Add(w1[1..], w2[1..]);
      StepAdditive(s1, s2, g);
      FeedAdditive(Step(s1, g), Step(s2, g), w1[1..], w2[1..], g);
    }
  }

  /** A constant term makes the step reversible. */
  lemma StepInjective(a: Poly, b: Poly, g: Poly)
    requires 0 < |a| == |b| == |g| && g[|g| - 1]
    requires Step(a, g) == Step(b, g)
    ensures a == b
  {
    var n := |g| - 1;
    assert Step(a, g)[n] == a[0] && Step(b, g)[n] == b[0];
    forall k | 0 < k <= n
      ensures a[k] == b[k]
    {
      assert Step(a, g)[k - 1] == (a[k] != (a[0] && g[k - 1]));
      assert Step(b, g)[k - 1] == (b[k] != (b[0] && g[k - 1]));
    }
  }

  lemma {:induction false} StepsInjective(n: nat, a: Poly, b: Poly, g: Poly)
    requires 0 < |a| == |b| == |g| && g[|g| - 1]
    requires Steps(n, a, g) == Steps(n, b, g)
    ensures a == b
  {
    if n > 0 {
      StepsInjective(n - 1, Step(a, g), Step(b, g), g);
      StepInjective(a, b, g);
    }
  }

  lemma {:induction false} FeedInjective(a: Poly, b: Poly, w: seq<bool>, g: Poly)
    requires 0 < |a| == |b| == |g| && g[|g| - 1]
    requires Feed(a, w, g) == Feed(b, w, g)
    ensures a == b
    decreases |w|
  {
    if w != [] {
      var s, t := a[0 := a[0] != w[0]], b[0 := b[0] != w[0]];
      FeedInjective(Step(s, g), Step(t, g), w[1..], g);
      StepInjective(s, t, g);
      assert a == s[0 := s[0] != w[0]] && b == t[0 := t[0] != w[0]];
    }
  }

  lemma StepOfWord(w: seq<bool>, g: Poly)
    requires |w| < |g|
    ensures Step([false] + w + Zeros(|g| - 1 - |w|), g) == w + Zeros(|g| - |w|)
  {
  }

  lemma AddFirst(r: Poly, w: seq<bool>, z: Poly)
    requires w != [] && |r| == |w| + |z|
    ensures Add(r, w + z) == Add(r[0 := r[0] != w[0]], [false] + w[1..] + z)
  {
  }

  /** A word no longer than the register may be added to it at once, before
  clocking: the step that a byte-wise table rests on. */
  lemma {:induction false} FeedWord(r: Poly, w: seq<bool>, g: Poly)
    requires 0 < |r| == |g| && |w| <= |r|
    ensures Feed(r, w, g) == Steps(|w|, Add(r, w + Zeros(|r| - |w|)), g)
    decreases |w|
  {
    if w == [] {
      assert Add(r, [] + Zeros(|r|)) == r;
    } else {
      var s, rest, z := r[0 := r[0] != w[0]], w[1..], Zeros(|r| - |w|);
      FeedWord(Step(s, g), rest, g);
      AddFirst(r, w, z);
      StepAdditive(s, [false] + rest + z, g);
      StepOfWord(rest, g);
    }
  }

  /** A word as long as the register. */
  lemma FeedWhole(n: nat, r: Poly, w: seq<bool>, g: Poly)
    requires 0 < |r| == |g| == n && |w| == n
    ensures Feed(r, w, g) == Steps(n, Add(r, w), g)
  {
    FeedWord(r, w, g);
    assert w + Zeros(0) == w;
  }

  /** Clocking out zeros only moves the rest of the register up. */
  lemma {:induction false} StepsShift(h: Poly, k: nat, g: Poly)
    requires 0 < |h| + k == |g|
    ensures Steps(k, Zeros(k) + h, g) == h + Zeros(k)
    decreases k
  {
    if k == 0 {
      assert Zeros(0) + h == h + Zeros(0);
    } else {
      var r := Zeros(k) + h;
      assert Step(r, g) == Zeros(k - 1) + (h + [false]);
      StepsShift(h + [false], k - 1, g);
      assert h + [false] + Zeros(k - 1) == h + Zeros(k);
    }
  }

  lemma {:induction false} StepsZero(n: nat, g: Poly)
    requires g != []
    ensures Steps(n, Zeros(|g|), g) == Zeros(|g|)
  {
    if n > 0 {
      assert Step(Zeros(|g|), g) == Zeros(|g|);
      StepsZero(n - 1, g);
    }
  }

  lemma AddSelf(a: Poly, b: Poly)
    requires |a| == |b|
    ensures a == b <==> Add(a, b) == Zeros(|a|)
  {
    if Add(a, b) == Zeros(|a|) {
      forall i | 0 <= i < |a| ensures a[i] == b[i] {
        assert Add(a, b)[i] == Zeros(|a|)[i];
      }
    }
  }
}
