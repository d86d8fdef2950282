/** crypto/kdf_chain.cpp: the key ratchet, over an arbitrary extraction function
with a 64-byte result.
*/
module KdfChain {
  import opened Uint

  const HALF_SIZE: nat := 32
  const CHAIN_INPUT: seq<u8> := [0x13, 0x37]

  type Prk = s: seq<u8> | |s| == 64 witness seq(64, _ => 0)

  /** What HKDF-extract computes from a salt and an input. */
  type Extract = (seq<u8>, seq<u8>) -> Prk

  // ---- The ratchet as a function of the seed and the position ----

  function Advance(extract: Extract, chain: seq<u8>): (next: seq<u8>)
    requires |chain| >= HALF_SIZE
    ensures |next| == |chain|
  {
    extract(chain, CHAIN_INPUT)[..HALF_SIZE] + chain[HALF_SIZE..]
  }

  /** The chain key after i calls. */
  function ChainAt(extract: Extract, seed: seq<u8>, i: nat): (chain: seq<u8>)
    requires |seed| >= HALF_SIZE
    ensures |chain| == |seed|
    decreases i
  {
    if i == 0 then seed else Advance(extract, ChainAt(extract, seed, i - 1))
  }

  /** The key that call i returns, counting from 0. */
  function KeyAt(extract: Extract, seed: seq<u8>, i: nat): seq<u8>
    requires |seed| >= HALF_SIZE
  {
    extract(ChainAt(extract, seed, i), CHAIN_INPUT)[HALF_SIZE..]
  }

  // ---- The object ----

  class KDFChain {
    const extract: Extract
    const rootKey: array<u8>
    const chainKey: array<u8>
    var n: u64
    /** Every key handed out, in order. */
    ghost var issued: seq<seq<u8>>

    /** The state and every key handed out are functions of the seed and the
    number of calls alone. */
    ghost predicate Valid()
      reads this, rootKey, chainKey
    {
      && rootKey != chainKey && rootKey.Length == chainKey.Length
      && n == |issued| % TWO_TO_THE_64
      && (|issued| > 0 ==> rootKey.Length >= HALF_SIZE)
      && (if rootKey.Length < HALF_SIZE then chainKey[..] == rootKey[..]
          else
            && chainKey[..] == ChainAt(extract, rootKey[..], |issued|)
            && forall j | 0 <= j < |issued| :: issued[j] == KeyAt(extract, rootKey[..], j))
    }

    constructor (extract: Extract, seed: seq<u8>)
      ensures Valid() && fresh(rootKey) && fresh(chainKey)
      ensures this.extract == extract && rootKey[..] == seed && chainKey[..] == seed && n == 0 && issued == []
    {
      this.extract := extract;
      var root := new u8[|seed|](i requires 0 <= i < |seed| => seed[i]);
      var chain := new u8[|seed|](i requires 0 <= i < |seed| => seed[i]);
      assert root[..] == seed && chain[..] == seed;
      rootKey := root;
      chainKey := chain;
      n := 0;
      issued := [];
    }

    /** The source writes 32 bytes over the chain key whatever its length. */
    method NextKey() returns (messageKey: seq<u8>)
      requires Valid() && chainKey.Length >= HALF_SIZE
      modifies this`n, this`issued, chainKey
      ensures Valid() && issued == old(issued) + [messageKey]
      ensures |messageKey| == HALF_SIZE && messageKey == KeyAt(extract, rootKey[..], old(|issued|))
      ensures chainKey[..32] + messageKey == extract(old(chainKey[..]), [0x13, 0x37])
      ensures chainKey[32..] == old(chainKey[32..]) && rootKey[..] == old(rootKey[..])
      ensures n == (old(n) + 1) % TWO_TO_THE_64
    {
      var hmac := extract(chainKey[..], CHAIN_INPUT);
      n := (n + 1) % TWO_TO_THE_64;
      ghost var seed, before := rootKey[..], chainKey[..];
      forall i | 0 <= i < HALF_SIZE {
        chainKey[i] := hmac[i];
      }
      assert rootKey[..] == seed;
      assert chainKey[..] == Advance(extract, before);
      messageKey := hmac[HALF_SIZE..];
      issued := issued + [messageKey];
    }
  }

  // ---- Runs ----

  /** Starting over from a later chain key continues the same run. */
  lemma {:induction false} ChainContinues(extract: Extract, seed: seq<u8>, i: nat, j: nat)
    requires |seed| >= HALF_SIZE
    ensures ChainAt(extract, ChainAt(extract, seed, i), j) == ChainAt(extract, seed, i + j)
    ensures KeyAt(extract, ChainAt(extract, seed, i), j) == KeyAt(extract, seed, i + j)
    decreases j
  {
    if j > 0 {
      ChainContinues(extract, seed, i, j - 1);
    }
  }

  /** Only the first 32 bytes of the chain key ever change. */
  lemma {:induction false} TailKept(extract: Extract, seed: seq<u8>, i: nat)
    requires |seed| >= HALF_SIZE
    ensures ChainAt(extract, seed, i)[HALF_SIZE..] == seed[HALF_SIZE..]
    decreases i
  {
    if i > 0 {
      TailKept(extract, seed, i - 1);
    }
  }

  /** Chains that ever meet, at whatever positions, hand out the same keys from there on. */
  lemma MeetingChains(extract: Extract, seed: seq<u8>, other: seq<u8>, i: nat, j: nat, k: nat)
    requires |seed| >= HALF_SIZE && |other| >= HALF_SIZE
    requires ChainAt(extract, seed, i) == ChainAt(extract, other, j)
    ensures ChainAt(extract, seed, i + k) == ChainAt(extract, other, j + k)
    ensures KeyAt(extract, seed, i + k) == KeyAt(extract, other, j + k)
  {
    ChainContinues(extract, seed, i, k);
    ChainContinues(extract, other, j, k);
  }

  lemma OnePeriod(extract: Extract, seed: seq<u8>, i: nat, period: nat, rest: nat)
    requires |seed| >= HALF_SIZE
    requires ChainAt(extract, seed, i) == ChainAt(extract, seed, i + period)
    ensures KeyAt(extract, seed, i + rest) == KeyAt(extract, seed, i + period + rest)
  {
    MeetingChains(extract, seed, seed, i, i + period, rest);
  }

  lemma {:induction false} ManyPeriods<T>(f: nat -> T, i: nat, period: nat, times: nat, k: nat)
    requires forall j | j >= i :: f(j + period) == f(j)
    ensures f(i + times * period + k) == f(i + k)
    decreases times
  {
    if times > 0 {
      ManyPeriods(f, i, period, times - 1, k);
      MulNext(times - 1, period);
      var last := i + (times - 1) * period + k;
      assert last >= i && i + times * period + k == last + period by {
        MulNonnegative(times - 1, period);
      }
    }
  }

  ghost function Keys(extract: Extract, seed: seq<u8>): nat -> seq<u8>
    requires |seed| >= HALF_SIZE
  {
    (i: nat) => if |seed| >= HALF_SIZE then KeyAt(extract, seed, i) else []
  }

  /** A chain that meets its own past repeats its keys for ever. */
  lemma RepeatedChain(extract: Extract, seed: seq<u8>, i: nat, period: nat, times: nat, k: nat)
    requires |seed| >= HALF_SIZE
    requires ChainAt(extract, seed, i) == ChainAt(extract, seed, i + period)
    ensures KeyAt(extract, seed, i + times * period + k) == KeyAt(extract, seed, i + k)
  {
    var keys := Keys(extract, seed);
    forall j | j >= i
      ensures keys(j + period) == keys(j)
    {
      OnePeriod(extract, seed, i, period, j - i);
    }
    ManyPeriods(keys, i, period, times, k);
    assert keys(i + times * period + k) == keys(i + k);
  }

  /** Chains whose bytes from 32 onward differ never meet. */
  lemma ChainsApart(extract: Extract, seed: seq<u8>, other: seq<u8>, i: nat, j: nat)
    requires |seed| >= HALF_SIZE && |other| >= HALF_SIZE && seed[HALF_SIZE..] != other[HALF_SIZE..]
    ensures ChainAt(extract, seed, i) != ChainAt(extract, other, j)
  {
    TailKept(extract, seed, i);
    TailKept(extract, other, j);
  }

  // ---- Only 32 bytes vary, so every chain repeats ----

  /** The bytes as the digits of a number, least significant first. */
  ghost function Number(bytes: seq<u8>): nat {
    if bytes == [] then 0 else bytes[0] + 256 * Number(bytes[1..])
  }

  lemma {:induction false} NumberBelow(bytes: seq<u8>)
    ensures Number(bytes) < Pow2(8 * |bytes|)
  {
    if bytes != [] {
      NumberBelow(bytes[1..]);
      NextByte(8 * |bytes[1..]|);
    }
  }

  lemma NextByte(n: nat)
    ensures Pow2(8 + n) == 256 * Pow2(n)
  {
    Pow2Add(8, n);
  }

  lemma {:induction false} NumberInjective(a: seq<u8>, b: seq<u8>)
    requires |a| == |b| && Number(a) == Number(b)
    ensures a == b
  {
    if a != [] {
      SameDigits(a[0], Number(a[1..]), b[0], Number(b[1..]));
      NumberInjective(a[1..], b[1..]);
      assert a == [a[0]] + a[1..] && b == [b[0]] + b[1..];
    }
  }

  lemma SameDigits(x: u8, m: nat, y: u8, n: nat)
    requires x + 256 * m == y + 256 * n
    ensures x == y && m == n
  {
  }

  ghost function Image(f: nat -> nat, k: nat): set<nat> {
    set i | 0 <= i < k :: f(i)
  }

  lemma {:induction false} ImageSize(f: nat -> nat, k: nat)
    requires forall i, j | 0 <= i < j < k :: f(i) != f(j)
    ensures |Image(f, k)| == k
  {
    if k > 0 {
      ImageSize(f, k - 1);
      assert Image(f, k) == Image(f, k - 1) + {f(k - 1)};
      assert f(k - 1) !in Image(f, k - 1);
    }
  }

  lemma {:induction false} BelowSize(s: set<nat>, n: nat)
    requires forall x | x in s :: x < n
    ensures |s| <= n
  {
    if n > 0 {
      BelowSize(s - {n - 1}, n - 1);
    } else {
      assert s == {};
    }
  }

  /** n + 1 values below n are not all different. */
  lemma Pigeonhole(f: nat -> nat, n: nat) returns (i: nat, j: nat)
    requires forall k | 0 <= k <= n :: f(k) < n
    ensures i < j <= n && f(i) == f(j)
  {
    if forall i, j | 0 <= i < j < n + 1 :: f(i) != f(j) {
      ImageSize(f, n + 1);
      BelowSize(Image(f, n + 1), n);
      assert false;
    }
    i, j :| 0 <= i < j < n + 1 && f(i) == f(j);
  }

  /** The varying part of the chain key after i calls. */
  ghost function HeadNumber(extract: Extract, seed: seq<u8>, i: nat): nat
    requires |seed| >= HALF_SIZE
  {
    Number(ChainAt(extract, seed, i)[..HALF_SIZE])
  }

  lemma SameHead(extract: Extract, seed: seq<u8>, i: nat, j: nat)
    requires |seed| >= HALF_SIZE && HeadNumber(extract, seed, i) == HeadNumber(extract, seed, j)
    ensures ChainAt(extract, seed, i) == ChainAt(extract, seed, j)
  {
    var a, b := ChainAt(extract, seed, i), ChainAt(extract, seed, j);
    NumberInjective(a[..HALF_SIZE], b[..HALF_SIZE]);
    TailKept(extract, seed, i);
    TailKept(extract, seed, j);
    assert a == a[..HALF_SIZE] + a[HALF_SIZE..] && b == b[..HALF_SIZE] + b[HALF_SIZE..];
  }

  /** Every seed comes back to a state within 2^256 calls. (bits stands for 256.) */
  lemma ChainRepeats(extract: Extract, seed: seq<u8>, bits: nat) returns (i: nat, j: nat)
    requires |seed| >= HALF_SIZE && bits == 8 * HALF_SIZE
    ensures i < j <= Pow2(bits) && ChainAt(extract, seed, i) == ChainAt(extract, seed, j)
  {
    var f: nat -> nat := (i: nat) => if |seed| >= HALF_SIZE then HeadNumber(extract, seed, i) else 0;
    forall k | 0 <= k <= Pow2(bits)
      ensures f(k) < Pow2(bits)
    {
      NumberBelow(ChainAt(extract, seed, k)[..HALF_SIZE]);
    }
    i, j := Pigeonhole(f, Pow2(bits));
    SameHead(extract, seed, i, j);
  }

  /** From call start on, the keys recur after period calls. */
  ghost predicate RecursFrom(extract: Extract, seed: seq<u8>, start: nat, period: nat)
    requires |seed| >= HALF_SIZE
  {
    forall i | i >= start :: KeyAt(extract, seed, i + period) == KeyAt(extract, seed, i)
  }

  /** The keys of every seed recur for ever, from within the first 2^256 calls and
  with a period of at most as many. (bits stands for 256.) */
  lemma KeysRecur(extract: Extract, seed: seq<u8>, bits: nat) returns (start: nat, period: nat)
    requires |seed| >= HALF_SIZE && bits == 8 * HALF_SIZE
    ensures period > 0 && start + period <= Pow2(bits) && RecursFrom(extract, seed, start, period)
  {
    var i, j := ChainRepeats(extract, seed, bits);
    start, period := i, j - i;
    forall i | i >= start
      ensures KeyAt(extract, seed, i + period) == KeyAt(extract, seed, i)
    {
      OnePeriod(extract, seed, start, period, i - start);
    }
  }

  // ---- Two parties ----

  ghost predicate SameSeed(a: KDFChain, b: KDFChain)
    reads a, a.rootKey, b, b.rootKey
  {
    a.extract == b.extract && a.rootKey[..] == b.rootKey[..]
  }

  /** The party that is behind has handed out exactly the first keys of the other,
  and, started from the state of the one behind, the remaining calls end in the
  state of the one ahead. */
  lemma CatchUp(behind: KDFChain, ahead: KDFChain)
    requires behind.Valid() && ahead.Valid() && SameSeed(behind, ahead)
    requires |behind.issued| <= |ahead.issued|
    ensures behind.issued <= ahead.issued
    ensures behind.chainKey.Length >= HALF_SIZE ==>
      ChainAt(behind.extract, behind.chainKey[..], |ahead.issued| - |behind.issued|) == ahead.chainKey[..]
    ensures behind.chainKey.Length >= HALF_SIZE ==>
      forall j | |behind.issued| <= j < |ahead.issued| ::
        ahead.issued[j] == KeyAt(behind.extract, behind.chainKey[..], j - |behind.issued|)
  {
    var seed, at := behind.rootKey[..], |behind.issued|;
    assert |seed| == |ahead.rootKey[..]|;
    if |seed| >= HALF_SIZE {
      ChainContinues(behind.extract, seed, at, |ahead.issued| - at);
      forall j | at <= j < |ahead.issued|
        ensures ahead.issued[j] == KeyAt(behind.extract, behind.chainKey[..], j - at)
      {
        ChainContinues(behind.extract, seed, at, j - at);
      }
    }
  }

  /** The 64-bit counters tell whether two parties are in step, as long as neither
  is 2^64 calls ahead. */
  lemma CountersAgree(a: KDFChain, b: KDFChain)
    requires a.Valid() && b.Valid() && SameSeed(a, b)
    requires |a.issued| < |b.issued| + TWO_TO_THE_64 && |b.issued| < |a.issued| + TWO_TO_THE_64
    ensures a.n == b.n <==> |a.issued| == |b.issued|
    ensures a.n == b.n ==> a.chainKey[..] == b.chainKey[..] && a.issued == b.issued
  {
    CloseRemainders(|a.issued|, |b.issued|);
    assert |a.rootKey[..]| == |b.rootKey[..]|;
  }

  lemma CloseRemainders(x: nat, y: nat)
    requires x < y + TWO_TO_THE_64 && y < x + TWO_TO_THE_64
    ensures x % TWO_TO_THE_64 == y % TWO_TO_THE_64 <==> x == y
  {
  }
}
