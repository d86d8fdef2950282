/** utils/bloom_filter.h: a fixed-size Bloom filter with an incremental
double-hash probe sequence, against the set of items it stands for.
*/
module BloomFilter {
  import opened Uint

  const HALF: nat := 0x1_0000_0000

  // ---- The probe sequence ----

  /** The first half is the whole hash, the second its upper 32 bits. */
  function GetHalves(hash: u64): (u64, u64) {
    (And(hash, 0xFFFF_FFFF_FFFF_FFFF), ShiftRight(hash, 32))
  }

  lemma Pow2Of32()
    ensures Pow2(32) == HALF
  {
    assert Pow2(8) == 256;
    Pow2Add(8, 8);
    Pow2Add(16, 16);
  }

  lemma MaskAll(hash: u64, mask: nat, k: nat)
    requires Pow2(k) == TWO_TO_THE_64 && mask == TWO_TO_THE_64 - 1
    ensures And(hash, mask) == hash
  {
    AndOnes(hash, k, mask, TWO_TO_THE_64);
  }

  lemma LowerHalf(hash: u64)
    ensures And(hash, 0xFFFF_FFFF_FFFF_FFFF) == hash
  {
    Pow2Of64();
    MaskAll(hash, 0xFFFF_FFFF_FFFF_FFFF, 64);
  }

  lemma UpperHalf(hash: u64)
    ensures ShiftRight(hash, 32) == hash / HALF
  {
    Pow2Of32();
    ShiftRightIs(hash, 32);
  }

  lemma HalvesAre(hash: u64)
    ensures GetHalves(hash) == (hash, hash / 0x1_0000_0000)
  {
    LowerHalf(hash);
    UpperHalf(hash);
  }

  /** One update of the running index, in 64-bit arithmetic. */
  function NextIndex(index: u64, step: nat, m: nat): (next: u64)
    requires m > 0
    ensures next < m
  {
    var sum := (index + step % TWO_TO_THE_64) % TWO_TO_THE_64;
    ModSmaller(sum, m);
    sum % m
  }

  lemma ModSmaller(a: nat, m: nat)
    requires m > 0
    ensures a % m <= a && a % m < m
  {
    var q := a / m;
    assert a == m * q + a % m;
    MulNonnegative(m, q);
  }

  /** What is added to the index at turn i. */
  function Steps(upper: u64): nat -> nat {
    (i: nat) => i * upper
  }

  /** The running index when the loop is at i. */
  function Index(lower: u64, steps: nat -> nat, m: nat, i: nat): u64
    requires m > 0
    decreases i, m
  {
    if i == 0 then lower else NextIndex(Index(lower, steps, m, i - 1), steps(i - 1), m)
  }

  function Position(hash: u64, m: nat, i: nat): (p: nat)
    requires m > 0
    ensures p < m
  {
    var (lower, upper) := GetHalves(hash);
    Index(lower, Steps(upper), m, i) % m
  }

  function Positions(hash: u64, m: nat): nat -> nat
    requires m > 0
  {
    (i: nat) => Position(hash, m, i)
  }

  function FirstOf(pos: nat -> nat, k: nat): set<nat> {
    set i | 0 <= i < k :: pos(i)
  }

  /** The bits that stand for an item with this hash. */
  function Probes(hash: u64, m: nat, k: nat): set<nat>
    requires m > 0
  {
    FirstOf(Positions(hash, m), k)
  }

  /** A bit stands for an item exactly when one of its first k positions is there:
  no fewer turns, and no more. */
  lemma ProbesExact(hash: u64, m: nat, k: nat, p: nat)
    requires m > 0
    ensures p in Probes(hash, m, k) <==> exists i :: 0 <= i < k && p == Position(hash, m, i)
  {
    var pos := Positions(hash, m);
    if p in Probes(hash, m, k) {
      var i :| 0 <= i < k && p == pos(i);
      assert p == Position(hash, m, i);
    }
    if i :| 0 <= i < k && p == Position(hash, m, i) {
      assert p == pos(i);
    }
  }

  lemma FirstNext(pos: nat -> nat, i: nat)
    ensures FirstOf(pos, i + 1) == FirstOf(pos, i) + {pos(i)}
  {
  }

  /** The positions that are set. */
  ghost function BitsOf(bits: seq<bool>): set<nat> {
    set j | 0 <= j < |bits| && bits[j]
  }

  lemma SetOne(bits: seq<bool>, p: nat)
    requires p < |bits|
    ensures BitsOf(bits[p := true]) == BitsOf(bits) + {p}
  {
  }

  /** Adding the probes of an item sets the bits at its first k positions, no others. */
  lemma PutBits(was: seq<bool>, now: seq<bool>, hash: u64, k: nat)
    requires |was| == |now| > 0
    ensures BitsOf(now) == BitsOf(was) + Probes(hash, |now|, k) ==> forall p | 0 <= p < |now| ::
      now[p] <==> was[p] || exists i :: 0 <= i < k && p == Position(hash, |now|, i)
  {
    if BitsOf(now) == BitsOf(was) + Probes(hash, |now|, k) {
      forall p | 0 <= p < |now|
        ensures now[p] <==> was[p] || exists i :: 0 <= i < k && p == Position(hash, |now|, i)
      {
        ProbesExact(hash, |now|, k, p);
        assert now[p] <==> p in BitsOf(now);
        assert was[p] <==> p in BitsOf(was);
      }
    }
  }

  // ---- The filter ----

  /** The bits that stand for a sequence of items. */
  ghost function AllProbes<T>(items: seq<T>, probes: T -> set<nat>): set<nat> {
    if items == [] then {}
    else AllProbes(items[..|items| - 1], probes) + probes(items[|items| - 1])
  }

  /** The bits that stand for each item, in a filter of m bits with k probes. */
  ghost function ProbesWith<T>(hash: T -> u64, m: nat, k: nat): T -> set<nat>
    requires m > 0
  {
    (item: T) => Probes(hash(item), m, k)
  }

  class StaticBloomFilter<T(==)> {
    const hash: T -> u64
    const k: nat
    const bits: array<bool>
    /** Everything ever put, in order. */
    ghost var items: seq<T>

    ghost function SetBits(): set<nat>
      reads bits
    {
      BitsOf(bits[..])
    }

    /** The bits that stand for each item. */
    ghost function ProbesOf(): T -> set<nat>
      requires bits.Length > 0
    {
      ProbesWith(hash, bits.Length, k)
    }

    /** The set bits are those of the items put, no more and no fewer. */
    ghost predicate Valid()
      reads this, bits
    {
      bits.Length > 0 && SetBits() == AllProbes(items, ProbesOf())
    }

    constructor (hash: T -> u64, m: nat, k: nat)
      requires m > 0
      ensures Valid() && items == [] && this.hash == hash && this.k == k && bits.Length == m && fresh(bits)
    {
      this.hash := hash;
      this.k := k;
      bits := new bool[m](_ => false);
      items := [];
    }

    method Put(item: T)
      requires Valid()
      modifies this`items, bits
      ensures Valid() && items == old(items) + [item]
      ensures SetBits() == old(SetBits()) + ProbesOf()(item)
      ensures forall p | 0 <= p < bits.Length ::
        bits[p] <==> old(bits[p]) || exists i :: 0 <= i < k && p == Position(hash(item), bits.Length, i)
    {
      var (lower, upper) := GetHalves(hash(item));
      var index: u64 := lower;
      ghost var pos := Positions(hash(item), bits.Length);
      ghost var was := bits[..];
      for i := 0 to k
        invariant index == Index(lower, Steps(upper), bits.Length, i)
        invariant SetBits() == BitsOf(was) + FirstOf(pos, i)
        invariant items == old(items)
      {
        ghost var now := bits[..];
        PositionAt(hash(item), lower, upper, bits.Length, i);
        bits[index % bits.Length] := true;
        assert bits[..] == now[pos(i) := true];
        SetOne(now, pos(i));
        FirstNext(pos, i);
        index := NextIndex(index, i * upper, bits.Length);
      }
      items := items + [item];
      assert items[..|items| - 1] == old(items);
      PutBits(was, bits[..], hash(item), k);
    }

    /** True exactly when every bit of the item is set; so, for every item put. */
    method MightContain(item: T) returns (r: bool)
      requires Valid()
      ensures r <==> ProbesOf()(item) <= SetBits()
      ensures r <==> forall i | 0 <= i < k :: bits[Position(hash(item), bits.Length, i)]
      ensures item in items ==> r
    {
      var (lower, upper) := GetHalves(hash(item));
      var index: u64 := lower;
      AllProbesSet(this, item);
      for i := 0 to k
        invariant index == Index(lower, Steps(upper), bits.Length, i)
        invariant forall j | 0 <= j < i :: bits[Position(hash(item), bits.Length, j)]
      {
        PositionAt(hash(item), lower, upper, bits.Length, i);
        if !bits[index % bits.Length] {
          return false;
        }
        index := NextIndex(index, i * upper, bits.Length);
      }
      return true;
    }
  }

  /** The bits at the first k positions of an item are set exactly when its probes
  are; so they are for every item put. */
  lemma AllProbesSet<T>(filter: StaticBloomFilter<T>, item: T)
    requires filter.Valid()
    ensures (forall i | 0 <= i < filter.k :: filter.bits[Position(filter.hash(item), filter.bits.Length, i)])
      <==> filter.ProbesOf()(item) <= filter.SetBits()
    ensures item in filter.items ==> filter.ProbesOf()(item) <= filter.SetBits()
  {
    var hash, m, k := filter.hash(item), filter.bits.Length, filter.k;
    if item in filter.items {
      MemberProbes(filter.items, item, filter.ProbesOf());
    }
    forall p
      ensures p in Probes(hash, m, k) <==> exists i :: 0 <= i < k && p == Position(hash, m, i)
    {
      ProbesExact(hash, m, k, p);
    }
    assert forall i | 0 <= i < k :: Position(hash, m, i) in Probes(hash, m, k);
  }

  lemma PositionAt(hash: u64, lower: u64, upper: u64, m: nat, i: nat)
    requires m > 0 && GetHalves(hash) == (lower, upper)
    ensures Positions(hash, m)(i) == Position(hash, m, i) == Index(lower, Steps(upper), m, i) % m
    ensures Index(lower, Steps(upper), m, i + 1) == NextIndex(Index(lower, Steps(upper), m, i), i * upper, m)
  {
  }

  // ---- Runs of puts ----

  /** A bit stands for a run exactly when it stands for one of its items. */
  lemma {:induction false} AllProbesExact<T>(items: seq<T>, probes: T -> set<nat>, p: nat)
    ensures p in AllProbes(items, probes) <==> exists j :: 0 <= j < |items| && p in probes(items[j])
  {
    if items != [] {
      AllProbesExact(items[..|items| - 1], probes, p);
    }
  }

  lemma MemberProbes<T>(items: seq<T>, item: T, probes: T -> set<nat>)
    requires item in items
    ensures probes(item) <= AllProbes(items, probes)
  {
    var j :| 0 <= j < |items| && items[j] == item;
    forall p | p in probes(item)
      ensures p in AllProbes(items, probes)
    {
      AllProbesExact(items, probes, p);
      assert p in probes(items[j]);
    }
  }

  lemma RunIncluded<T>(a: seq<T>, b: seq<T>, probes: T -> set<nat>)
    requires forall x | x in a :: x in b
    ensures AllProbes(a, probes) <= AllProbes(b, probes)
  {
    forall p | p in AllProbes(a, probes)
      ensures p in AllProbes(b, probes)
    {
      AllProbesExact(a, probes, p);
      var j :| 0 <= j < |a| && p in probes(a[j]);
      assert a[j] in a;
      MemberProbes(b, a[j], probes);
    }
  }

  /** Order and repetition of the puts make no difference. */
  lemma OrderIrrelevant<T>(a: seq<T>, b: seq<T>, probes: T -> set<nat>)
    requires (forall x | x in a :: x in b) && (forall x | x in b :: x in a)
    ensures AllProbes(a, probes) == AllProbes(b, probes)
  {
    RunIncluded(a, b, probes);
    RunIncluded(b, a, probes);
  }

  /** Filters of one shape that were given the same items hold the same bits. */
  lemma SameItemsSameBits<T>(f: StaticBloomFilter<T>, g: StaticBloomFilter<T>)
    requires f.Valid() && g.Valid()
    requires f.hash == g.hash && f.k == g.k && f.bits.Length == g.bits.Length
    requires (forall x | x in f.items :: x in g.items) && (forall x | x in g.items :: x in f.items)
    ensures f.SetBits() == g.SetBits()
    ensures f.bits[..] == g.bits[..]
  {
    OrderIrrelevant(f.items, g.items, f.ProbesOf());
    forall j | 0 <= j < f.bits.Length
      ensures f.bits[j] == g.bits[j]
    {
      assert f.bits[j] <==> j in f.SetBits();
      assert g.bits[j] <==> j in g.SetBits();
    }
  }

  /** Probes 0 and 1 always coincide: the first update adds nothing. */
  lemma FirstTwoProbesCoincide(hash: u64, m: nat)
    requires m > 0
    ensures Position(hash, m, 0) == Position(hash, m, 1)
  {
    var (lower, upper) := GetHalves(hash);
    assert Steps(upper)(0) == 0;
    NoStep(lower, m);
    ModTwiceSame(lower, m);
  }

  lemma NoStep(a: u64, m: nat)
    requires m > 0
    ensures NextIndex(a, 0, m) == a % m
  {
  }

  lemma ModTwiceSame(a: nat, m: nat)
    requires m > 0
    ensures a % m % m == a % m
  {
    ModSmaller(a, m);
    ModIs(a % m, m, 0, a % m);
  }

  lemma {:induction false} FirstCount(pos: nat -> nat, k: nat)
    requires k >= 2 && pos(0) == pos(1)
    ensures |FirstOf(pos, k)| <= k - 1
  {
    if k == 2 {
      assert FirstOf(pos, 2) == {pos(0)};
    } else {
      FirstCount(pos, k - 1);
      FirstNext(pos, k - 1);
    }
  }

  /** An item sets at most k - 1 distinct bits. */
  lemma ProbesCount(hash: u64, m: nat, k: nat)
    requires m > 0 && k >= 2
    ensures |Probes(hash, m, k)| <= k - 1
  {
    FirstTwoProbesCoincide(hash, m);
    FirstCount(Positions(hash, m), k);
  }

  lemma {:induction false} RunCount<T>(items: seq<T>, probes: T -> set<nat>, most: nat)
    requires forall x | x in items :: |probes(x)| <= most
    ensures |AllProbes(items, probes)| <= |items| * most
  {
    if items != [] {
      var last := |items| - 1;
      RunCount(items[..last], probes, most);
      assert items[last] in items;
      UnionCount(AllProbes(items[..last], probes), probes(items[last]));
      MulNext(last, most);
    }
  }

  lemma RunLoad<T>(items: seq<T>, hash: T -> u64, m: nat, k: nat)
    requires m > 0 && k >= 2
    ensures |AllProbes(items, ProbesWith(hash, m, k))| <= |items| * (k - 1)
  {
    var probes := ProbesWith(hash, m, k);
    forall x | x in items
      ensures |probes(x)| <= k - 1
    {
      ProbesCount(hash(x), m, k);
    }
    RunCount(items, probes, k - 1);
  }

  /** After n puts with k >= 2 at most n * (k - 1) bits are set. */
  lemma LoadBound<T>(filter: StaticBloomFilter<T>)
    requires filter.Valid() && filter.k >= 2
    ensures |filter.SetBits()| <= |filter.items| * (filter.k - 1)
  {
    RunLoad(filter.items, filter.hash, filter.bits.Length, filter.k);
  }

  lemma UnionCount(a: set<nat>, b: set<nat>)
    ensures |a + b| <= |a| + |b|
  {
    assert a + b == a + (b - a);
  }

  // ---- The closed form of the probes ----

  function Triangle(i: nat): nat {
    if i == 0 then 0 else Triangle(i - 1) + (i - 1)
  }

  lemma {:induction false} TriangleIs(i: nat)
    ensures Triangle(i) == i * (i - 1) / 2
  {
    if i > 0 {
      TriangleIs(i - 1);
      assert i * (i - 1) == (i - 1) * (i - 2) + 2 * (i - 1);
    }
  }

  /** The 2^64s that one update loses. */
  ghost function Lost(index: u64, step: nat): nat {
    step / TWO_TO_THE_64 + (index + step % TWO_TO_THE_64) / TWO_TO_THE_64
  }

  /** The ms that one update takes off. */
  ghost function Taken(index: u64, step: nat, m: nat): nat
    requires m > 0
  {
    (index + step % TWO_TO_THE_64) % TWO_TO_THE_64 / m
  }

  /** f(0) + ... + f(i - 1). */
  ghost function SumTo(f: nat -> nat, i: nat): nat
    decreases i
  {
    if i == 0 then 0 else SumTo(f, i - 1) + f(i - 1)
  }

  ghost function IndexAt(lower: u64, steps: nat -> nat, m: nat): nat -> nat
    requires m > 0
  {
    (j: nat) => Index(lower, steps, m, j)
  }

  ghost function LostAt(lower: u64, steps: nat -> nat, m: nat): nat -> nat
    requires m > 0
  {
    (j: nat) => Lost(Index(lower, steps, m, j), steps(j))
  }

  ghost function TakenAt(lower: u64, steps: nat -> nat, m: nat): nat -> nat
    requires m > 0
  {
    (j: nat) => Taken(Index(lower, steps, m, j), steps(j), m)
  }

  /** What one update of the index keeps and loses. */
  lemma LedgerStep(index: u64, step: nat, m: nat)
    requires m > 0
    ensures NextIndex(index, step, m) + m * Taken(index, step, m) + TWO_TO_THE_64 * Lost(index, step) == index + step
  {
    var sum := (index + step % TWO_TO_THE_64) % TWO_TO_THE_64;
    assert sum == m * (sum / m) + sum % m;
  }

  /** Every update up to i accounts for what it adds. */
  ghost predicate Accounted(index: nat -> nat, lost: nat -> nat, taken: nat -> nat, steps: nat -> nat, m: nat, i: nat) {
    forall j | 0 <= j < i :: index(j + 1) + m * taken(j) + TWO_TO_THE_64 * lost(j) == index(j) + steps(j)
  }

  lemma LedgerNext(index: nat -> nat, lost: nat -> nat, taken: nat -> nat, steps: nat -> nat, m: nat, j: nat)
    requires index(j + 1) + m * taken(j) + TWO_TO_THE_64 * lost(j) == index(j) + steps(j)
    requires index(j) + TWO_TO_THE_64 * SumTo(lost, j) + m * SumTo(taken, j) == index(0) + SumTo(steps, j)
    ensures index(j + 1) + TWO_TO_THE_64 * SumTo(lost, j + 1) + m * SumTo(taken, j + 1)
      == index(0) + SumTo(steps, j + 1)
  {
    assert SumTo(lost, j + 1) == SumTo(lost, j) + lost(j);
    assert SumTo(steps, j + 1) == SumTo(steps, j) + steps(j);
    assert m * SumTo(taken, j + 1) == m * SumTo(taken, j) + m * taken(j) by {
      assert SumTo(taken, j + 1) == SumTo(taken, j) + taken(j);
      MulOverAdd(m, SumTo(taken, j), taken(j));
    }
  }

  /** What holds of every update holds of a run: nothing is unaccounted for. */
  lemma {:induction false} LedgerSum(index: nat -> nat, lost: nat -> nat, taken: nat -> nat,
      steps: nat -> nat, m: nat, i: nat)
    requires Accounted(index, lost, taken, steps, m, i)
    ensures index(i) + TWO_TO_THE_64 * SumTo(lost, i) + m * SumTo(taken, i) == index(0) + SumTo(steps, i)
    decreases i
  {
    if i > 0 {
      LedgerSum(index, lost, taken, steps, m, i - 1);
      LedgerNext(index, lost, taken, steps, m, i - 1);
    }
  }

  lemma LedgerAt(lower: u64, steps: nat -> nat, m: nat, j: nat)
    requires m > 0
    ensures IndexAt(lower, steps, m)(j + 1) + m * TakenAt(lower, steps, m)(j)
      + TWO_TO_THE_64 * LostAt(lower, steps, m)(j) == IndexAt(lower, steps, m)(j) + steps(j)
  {
    LedgerStep(Index(lower, steps, m, j), steps(j), m);
  }

  /** No update of the running index leaves anything unaccounted for. */
  lemma IndexAccounted(lower: u64, steps: nat -> nat, m: nat, i: nat)
    requires m > 0
    ensures Accounted(IndexAt(lower, steps, m), LostAt(lower, steps, m), TakenAt(lower, steps, m), steps, m, i)
  {
    forall j | 0 <= j < i
      ensures IndexAt(lower, steps, m)(j + 1) + m * TakenAt(lower, steps, m)(j)
        + TWO_TO_THE_64 * LostAt(lower, steps, m)(j) == IndexAt(lower, steps, m)(j) + steps(j)
    {
      LedgerAt(lower, steps, m, j);
    }
  }

  lemma ModOfMultiple(a: int, m: nat, t: int)
    requires m > 0
    ensures (a + m * t) % m == a % m
  {
    var q := a / m;
    MulOverAdd(m, q, t);
    assert a + m * t == m * (q + t) + a % m;
    ModIs(a + m * t, m, q + t, a % m);
  }

  lemma ModKept(a: int, b: int, m: nat)
    requires m > 0
    ensures (a + b) % m == a % m <==> b % m == 0
  {
    var q := b / m;
    assert b == m * q + b % m;
    if b % m == 0 {
      ModOfMultiple(a, m, q);
    }
    if (a + b) % m == a % m {
      var t := (a + b) / m - a / m;
      assert a + b == m * ((a + b) / m) + (a + b) % m && a == m * (a / m) + a % m;
      MulOverAdd(m, (a + b) / m, -(a / m));
      assert b == m * t;
      ModIs(b, m, t, 0);
    }
  }

  /** An index, plus what wrapped, plus turns of m, against their sum. */
  lemma LedgerMod(index: int, wrapped: int, m: nat, turns: int, total: int)
    requires m > 0 && index + wrapped + m * turns == total
    ensures index % m == total % m <==> wrapped % m == 0
    ensures (index + wrapped) % m == total % m
  {
    ModOfMultiple(index + wrapped, m, turns);
    ModKept(index, wrapped, m);
  }

  lemma {:induction false} StepsSum(upper: u64, i: nat)
    ensures SumTo(Steps(upper), i) == upper * Triangle(i)
    decreases i
  {
    if i > 0 {
      StepsSum(upper, i - 1);
      MulOverAdd(upper, Triangle(i - 1), i - 1);
      assert Steps(upper)(i - 1) == (i - 1) * upper;
    }
  }

  /** The probe that exact arithmetic would give. */
  function ClosedForm(hash: u64, m: nat, i: nat): nat
    requires m > 0
  {
    (hash + hash / HALF * Triangle(i)) % m
  }

  /** How many times 2^64 was lost to wrap-around before the loop reaches i. */
  ghost function WrapsAt(hash: u64, m: nat, i: nat): nat
    requires m > 0
  {
    SumTo(LostAt(hash, Steps(hash / HALF), m), i)
  }

  lemma PositionIs(hash: u64, m: nat, i: nat)
    requires m > 0
    ensures Position(hash, m, i) == Index(hash, Steps(hash / HALF), m, i) % m
  {
    HalvesAre(hash);
  }

  lemma ClosedFormMeans(hash: u64, m: nat, i: nat)
    requires m > 0
    ensures ClosedForm(hash, m, i) == (hash + hash / 0x1_0000_0000 * (i * (i - 1) / 2)) % m
  {
    TriangleIs(i);
  }

  lemma ClosedFormIs(hash: u64, m: nat, i: nat)
    requires m > 0
    ensures ClosedForm(hash, m, i) == (hash + SumTo(Steps(hash / HALF), i)) % m
  {
    StepsSum(hash / HALF, i);
  }

  lemma ExactOf(position: nat, closed: nat, m: nat, i: nat, start: nat, last: nat,
      index: nat -> nat, lost: nat -> nat, taken: nat -> nat, steps: nat -> nat)
    requires m > 0 && Accounted(index, lost, taken, steps, m, i) && index(0) == start && index(i) == last
    requires position == last % m && closed == (start + SumTo(steps, i)) % m
    ensures position == closed <==> TWO_TO_THE_64 * SumTo(lost, i) % m == 0
  {
    var wraps, turns, total := SumTo(lost, i), SumTo(taken, i), start + SumTo(steps, i);
    assert last + TWO_TO_THE_64 * wraps + m * turns == total by {
      LedgerSum(index, lost, taken, steps, m, i);
    }
    ExactSum(position, closed, m, last, wraps, turns, total);
  }

  lemma ExactSum(position: nat, closed: nat, m: nat, last: nat, wraps: nat, turns: nat, total: nat)
    requires m > 0 && last + TWO_TO_THE_64 * wraps + m * turns == total
    requires position == last % m && closed == total % m
    ensures position == closed <==> TWO_TO_THE_64 * wraps % m == 0
  {
    LedgerMod(last, TWO_TO_THE_64 * wraps, m, turns, total);
  }

  lemma ExactFrom(position: nat, closed: nat, lower: u64, steps: nat -> nat, m: nat, i: nat)
    requires m > 0
    requires position == Index(lower, steps, m, i) % m && closed == (lower + SumTo(steps, i)) % m
    ensures position == closed <==> TWO_TO_THE_64 * SumTo(LostAt(lower, steps, m), i) % m == 0
  {
    IndexAccounted(lower, steps, m, i);
    ExactOf(position, closed, m, i, lower, Index(lower, steps, m, i),
      IndexAt(lower, steps, m), LostAt(lower, steps, m), TakenAt(lower, steps, m), steps);
  }

  /** The probe meets the closed form exactly when what wrapped around 64 bits on
  the way is a multiple of m; for every hash, size and turn. */
  lemma ClosedFormExact(hash: u64, m: nat, i: nat)
    requires m > 0
    ensures Position(hash, m, i) == ClosedForm(hash, m, i) <==> TWO_TO_THE_64 * WrapsAt(hash, m, i) % m == 0
  {
    PositionIs(hash, m, i);
    ClosedFormIs(hash, m, i);
    ExactFrom(Position(hash, m, i), ClosedForm(hash, m, i), hash, Steps(hash / HALF), m, i);
  }

  lemma LostIs(index: u64, step: nat)
    ensures Lost(index, step) == (index + step) / TWO_TO_THE_64
  {
  }

  lemma IndexBelow(lower: u64, steps: nat -> nat, m: nat, j: nat)
    requires m > 0 && j > 0
    ensures Index(lower, steps, m, j) < m
  {
  }

  lemma PositionIsIndex(hash: u64, m: nat, j: nat)
    requires m > 0 && j > 0
    ensures Position(hash, m, j) == Index(hash, Steps(hash / HALF), m, j)
  {
    PositionIs(hash, m, j);
    IndexBelow(hash, Steps(hash / HALF), m, j);
    SmallRemainder(Index(hash, Steps(hash / HALF), m, j), m);
  }

  lemma PositionIsWord(hash: u64, m: nat, j: nat)
    requires m > 0 && j > 0
    ensures Position(hash, m, j) < TWO_TO_THE_64
  {
    PositionIsIndex(hash, m, j);
  }

  /** The positions in 64-bit arithmetic, without the running index: turn 0 takes
  the hash, and each later turn adds so many upper halves to the position before. */
  lemma PositionRecurrence(hash: u64, m: nat, i: nat)
    requires m > 0
    ensures Position(hash, m, 0) == hash % m
    ensures i > 0 ==>
      Position(hash, m, i + 1) == (Position(hash, m, i) + i * (hash / 0x1_0000_0000)) % 0x1_0000_0000_0000_0000 % m
  {
    PositionIs(hash, m, 0);
    if i > 0 {
      var step := i * (hash / HALF);
      PositionIsIndex(hash, m, i);
      PositionIsIndex(hash, m, i + 1);
      assert Steps(hash / HALF)(i) == step;
      WrapOnce(Position(hash, m, i), step, m);
    }
  }

  lemma WrapOnce(index: u64, step: nat, m: nat)
    requires m > 0
    ensures NextIndex(index, step, m) == (index + step) % TWO_TO_THE_64 % m
  {
    ModOfSum(index, step, TWO_TO_THE_64);
  }

  lemma ModOfSum(a: nat, b: nat, w: nat)
    requires w > 0
    ensures (a + b % w) % w == (a + b) % w
  {
    var q := b / w;
    assert b == w * q + b % w;
    ModOfMultiple(a + b % w, w, q);
  }

  lemma SmallRemainder(a: nat, m: nat)
    requires a < m
    ensures a % m == a
  {
  }

  lemma MultipleOfMultiple(a: nat, w: nat, m: nat)
    requires m > 0 && a % m == 0
    ensures a * w % m == 0
  {
    var q := a / m;
    assert a * w == m * (q * w) by {
      assert a == m * q;
      MulRegroup(m, q, w);
    }
    MulNonnegative(q, w);
    ModIs(a * w, m, q * w, 0);
  }

  /** The probe of turn j is the closed form. */
  ghost predicate Agrees(hash: u64, m: nat, j: nat)
    requires m > 0
  {
    Position(hash, m, j) == ClosedForm(hash, m, j)
  }

  /** What the update at turn j loses, as long as the probe is the closed form. */
  function Excess(hash: u64, m: nat, j: nat): nat
    requires m > 0
  {
    if j == 0 then 0 else (ClosedForm(hash, m, j) + j * (hash / HALF)) / TWO_TO_THE_64
  }

  lemma TurnLoses(hash: u64, m: nat, j: nat)
    requires m > 0
    ensures WrapsAt(hash, m, j + 1)
      == WrapsAt(hash, m, j) + Lost(Index(hash, Steps(hash / HALF), m, j), Steps(hash / HALF)(j))
  {
    var lost := LostAt(hash, Steps(hash / HALF), m);
    assert SumTo(lost, j + 1) == SumTo(lost, j) + lost(j);
  }

  lemma FirstLosesNothing(hash: u64, m: nat)
    requires m > 0
    ensures Lost(Index(hash, Steps(hash / HALF), m, 0), Steps(hash / HALF)(0)) == 0
  {
    assert Steps(hash / HALF)(0) == 0;
    LostIs(hash, 0);
  }

  lemma ExcessIs(hash: u64, m: nat, j: nat, closed: nat, step: nat)
    requires m > 0 && j > 0 && closed == ClosedForm(hash, m, j) && step == j * (hash / HALF)
    ensures Excess(hash, m, j) == (closed + step) / TWO_TO_THE_64
  {
  }

  lemma LaterLoses(hash: u64, m: nat, j: nat)
    requires m > 0 && j > 0
    ensures Agrees(hash, m, j) ==>
      Lost(Index(hash, Steps(hash / HALF), m, j), Steps(hash / HALF)(j)) == Excess(hash, m, j)
  {
    var index, step := Index(hash, Steps(hash / HALF), m, j), Steps(hash / HALF)(j);
    PositionIsIndex(hash, m, j);
    LostIs(index, step);
    ExcessIs(hash, m, j, ClosedForm(hash, m, j), step);
  }

  lemma ExcessIsLost(hash: u64, m: nat, j: nat)
    requires m > 0
    ensures Agrees(hash, m, j) ==> WrapsAt(hash, m, j + 1) == WrapsAt(hash, m, j) + Excess(hash, m, j)
  {
    TurnLoses(hash, m, j);
    if j == 0 {
      FirstLosesNothing(hash, m);
    } else {
      LaterLoses(hash, m, j);
    }
  }

  lemma MoreWraps(met: bool, meets: bool, before: nat, more: nat, after: nat, m: nat)
    requires m > 0 && met && after == before + more
    requires met <==> TWO_TO_THE_64 * before % m == 0
    requires meets <==> TWO_TO_THE_64 * after % m == 0
    ensures meets <==> TWO_TO_THE_64 * more % m == 0
  {
    MulOverAdd(TWO_TO_THE_64, before, more);
    ModKept(TWO_TO_THE_64 * before, TWO_TO_THE_64 * more, m);
  }

  /** From a turn that meets the closed form, the next meets it too exactly when
  what the update loses is a multiple of m. */
  lemma OneTurn(hash: u64, m: nat, j: nat)
    requires m > 0
    ensures Agrees(hash, m, j) ==> (Agrees(hash, m, j + 1) <==> TWO_TO_THE_64 * Excess(hash, m, j) % m == 0)
  {
    if Agrees(hash, m, j) {
      ClosedFormExact(hash, m, j);
      ClosedFormExact(hash, m, j + 1);
      ExcessIsLost(hash, m, j);
      MoreWraps(Agrees(hash, m, j), Agrees(hash, m, j + 1),
        WrapsAt(hash, m, j), Excess(hash, m, j), WrapsAt(hash, m, j + 1), m);
    }
  }

  /** All probes up to turn i are the closed form. */
  ghost predicate MeetsClosedForm(hash: u64, m: nat, i: nat)
    requires m > 0
  {
    forall j | 0 <= j <= i :: Agrees(hash, m, j)
  }

  lemma FirstTurn(hash: u64, m: nat)
    requires m > 0
    ensures Position(hash, m, 0) == ClosedForm(hash, m, 0)
  {
    HalvesAre(hash);
    assert hash / HALF * Triangle(0) == 0;
  }

  /** For every hash, size and number of turns: the probes are the closed form
  exactly when, by the closed form itself, each update would lose a multiple of m. */
  lemma {:induction false} ClosedFormRun(hash: u64, m: nat, i: nat)
    requires m > 0
    ensures MeetsClosedForm(hash, m, i) <==>
      forall j | 0 <= j < i :: TWO_TO_THE_64 * Excess(hash, m, j) % m == 0
    decreases i
  {
    FirstTurn(hash, m);
    if i > 0 {
      ClosedFormRun(hash, m, i - 1);
      assert MeetsClosedForm(hash, m, i) <==>
        MeetsClosedForm(hash, m, i - 1) && Agrees(hash, m, i);
      if MeetsClosedForm(hash, m, i - 1) {
        OneTurn(hash, m, i - 1);
      }
    }
  }

  lemma StepSmall(j: nat, upper: nat, i: nat)
    requires upper < HALF && j <= i
    ensures j * upper <= i * (HALF - 1)
  {
    MulOrder(upper, HALF - 1, j);
    MulOrder(j, i, HALF - 1);
  }

  lemma SmallSum(closed: nat, step: nat, excess: nat)
    requires excess == (closed + step) / TWO_TO_THE_64
    ensures closed + step < TWO_TO_THE_64 <==> excess == 0
    ensures closed < TWO_TO_THE_64 && step < TWO_TO_THE_64 ==> excess <= 1
  {
  }

  lemma SmallMultiple(excess: nat, m: nat)
    requires m > 0 && excess <= 1
    ensures TWO_TO_THE_64 * excess % m == 0 <==> TWO_TO_THE_64 % m == 0 || excess == 0
  {
  }

  lemma ClosedFormBelow(hash: u64, m: nat, j: nat)
    requires m > 0
    ensures ClosedForm(hash, m, j) < m
  {
  }

  lemma NoExcess(hash: u64, m: nat, i: nat, j: nat)
    requires m > 0 && j < i && m + (i - 1) * (HALF - 1) <= TWO_TO_THE_64
    ensures Excess(hash, m, j) == 0
  {
    if j > 0 {
      StepSmall(j, hash / HALF, i - 1);
      ClosedFormBelow(hash, m, j);
      SmallSum(ClosedForm(hash, m, j), j * (hash / HALF), Excess(hash, m, j));
    }
  }

  /** So the probes are the closed form while m and the last step fit in 64 bits
  together; filters of up to 2^63 bits and 2^31 probes among them. */
  lemma ClosedFormHolds(hash: u64, m: nat, i: nat)
    requires m > 0 && (i > 0 ==> m + (i - 1) * (HALF - 1) <= TWO_TO_THE_64)
    ensures MeetsClosedForm(hash, m, i)
  {
    forall j | 0 <= j < i
      ensures TWO_TO_THE_64 * Excess(hash, m, j) % m == 0
    {
      NoExcess(hash, m, i, j);
      SmallMultiple(Excess(hash, m, j), m);
    }
    ClosedFormRun(hash, m, i);
  }

  /** No update up to turn i would carry the closed form beyond 64 bits. */
  ghost predicate StaysBelow(hash: u64, m: nat, i: nat)
    requires m > 0
  {
    forall j | 0 < j < i :: ClosedForm(hash, m, j) + j * (hash / HALF) < TWO_TO_THE_64
  }

  lemma SmallExcess(hash: u64, m: nat, i: nat, j: nat)
    requires m > 0 && j < i && i * (HALF - 1) < TWO_TO_THE_64
    ensures Agrees(hash, m, j) ==> (TWO_TO_THE_64 * Excess(hash, m, j) % m == 0 <==>
      TWO_TO_THE_64 % m == 0 || j == 0 || ClosedForm(hash, m, j) + j * (hash / HALF) < TWO_TO_THE_64)
  {
    if Agrees(hash, m, j) {
      if j > 0 {
        ExcessAtMostOne(hash, m, i, j);
      }
      SmallMultiple(Excess(hash, m, j), m);
    }
  }

  lemma ExcessAtMostOne(hash: u64, m: nat, i: nat, j: nat)
    requires m > 0 && 0 < j < i && i * (HALF - 1) < TWO_TO_THE_64
    ensures Agrees(hash, m, j) ==> Excess(hash, m, j) <= 1
    ensures Excess(hash, m, j) == 0 <==> ClosedForm(hash, m, j) + j * (hash / HALF) < TWO_TO_THE_64
  {
    StepSmall(j, hash / HALF, i);
    PositionIsWord(hash, m, j);
    SmallSum(ClosedForm(hash, m, j), j * (hash / HALF), Excess(hash, m, j));
  }

  /** With fewer than about 2^32 probes an update loses at most one 2^64, and so the
  probes are the closed form exactly when m divides 2^64 or none ever wraps. */
  lemma {:induction false} ClosedFormUntilWrap(hash: u64, m: nat, i: nat)
    requires m > 0 && i * (HALF - 1) < TWO_TO_THE_64
    ensures MeetsClosedForm(hash, m, i) <==> TWO_TO_THE_64 % m == 0 || StaysBelow(hash, m, i)
    decreases i
  {
    FirstTurn(hash, m);
    if i > 0 {
      MulOrder(i - 1, i, HALF - 1);
      ClosedFormUntilWrap(hash, m, i - 1);
      assert MeetsClosedForm(hash, m, i) <==>
        MeetsClosedForm(hash, m, i - 1) && Agrees(hash, m, i);
      if MeetsClosedForm(hash, m, i - 1) {
        OneTurn(hash, m, i - 1);
        SmallExcess(hash, m, i, i - 1);
      }
    }
  }

  lemma {:induction false} SumOfZeros(f: nat -> nat, i: nat)
    requires forall j | 0 <= j < i :: f(j) == 0
    ensures SumTo(f, i) == 0
  {
    if i > 0 {
      SumOfZeros(f, i - 1);
    }
  }

  // Which sizes make the closed form hold for every hash and turn.

  /** The first place where f is not zero. */
  lemma FirstNonzero(f: nat -> nat, n: nat) returns (j: nat)
    requires f(n) != 0
    ensures j <= n && f(j) != 0 && forall i | 0 <= i < j :: f(i) == 0
  {
    j := 0;
    while f(j) == 0
      invariant j <= n && forall i | 0 <= i < j :: f(i) == 0
      decreases n - j
    {
      j := j + 1;
    }
  }

  lemma LostAtMostOnce(index: u64, step: nat)
    requires step <= TWO_TO_THE_64
    ensures Lost(index, step) <= 1 && (step == TWO_TO_THE_64 ==> Lost(index, step) == 1)
  {
  }

  lemma HalfSteps(j: nat)
    requires j <= 2 * HALF
    ensures Steps(HALF / 2)(j) <= TWO_TO_THE_64
    ensures j == 2 * HALF ==> Steps(HALF / 2)(j) == TWO_TO_THE_64
  {
  }

  lemma SumIsOne(f: nat -> nat, n: nat) returns (i: nat)
    requires f(n) == 1 && forall j | 0 <= j <= n :: f(j) <= 1
    ensures SumTo(f, i) == 1
  {
    var j := FirstNonzero(f, n);
    SumOfZeros(f, j);
    i := j + 1;
  }

  lemma LostByHalfSteps(lower: u64, m: nat, j: nat)
    requires m > 0 && j <= 2 * HALF
    ensures LostAt(lower, Steps(HALF / 2), m)(j) <= 1
    ensures j == 2 * HALF ==> LostAt(lower, Steps(HALF / 2), m)(j) == 1
  {
    HalfSteps(j);
    LostAtMostOnce(Index(lower, Steps(HALF / 2), m, j), Steps(HALF / 2)(j));
  }

  /** With steps of 2^31 the first update that wraps loses exactly one 2^64. */
  lemma FirstWrap(lower: u64, m: nat) returns (i: nat)
    requires m > 0
    ensures SumTo(LostAt(lower, Steps(HALF / 2), m), i) == 1
  {
    var lost, n := LostAt(lower, Steps(HALF / 2), m), 2 * HALF;
    LostByHalfSteps(lower, m, n);
    forall j | 0 <= j <= n
      ensures lost(j) <= 1
    {
      LostByHalfSteps(lower, m, j);
    }
    i := SumIsOne(lost, n);
  }

  /** Unless m divides 2^64, this hash leaves the closed form at some turn. */
  lemma LeavesClosedForm(hash: u64, m: nat) returns (i: nat)
    requires m > 0 && TWO_TO_THE_64 % m != 0 && hash == TWO_TO_THE_64 / 2
    ensures Position(hash, m, i) != ClosedForm(hash, m, i)
  {
    i := FirstWrap(hash, m);
    assert hash / HALF == HALF / 2;
    ClosedFormExact(hash, m, i);
  }

  /** The probes of a filter of m bits are the closed form, for every hash and at
  every turn, exactly when m divides 2^64: for the powers of two up to it. */
  lemma ClosedFormAlways(m: nat)
    requires m > 0
    ensures (forall hash: u64, i: nat :: Position(hash, m, i) == ClosedForm(hash, m, i)) <==> TWO_TO_THE_64 % m == 0
  {
    if TWO_TO_THE_64 % m == 0 {
      forall hash: u64, i: nat
        ensures Position(hash, m, i) == ClosedForm(hash, m, i)
      {
        MultipleOfMultiple(TWO_TO_THE_64, WrapsAt(hash, m, i), m);
        ClosedFormExact(hash, m, i);
      }
    } else {
      var i := LeavesClosedForm(TWO_TO_THE_64 / 2, m);
    }
  }

  // Three bits and 2^32 + 3 probes are enough to leave the closed form.

  lemma ClosedFormOfThree(hash: u64, m: nat, i: nat)
    requires m == 3 && hash == TWO_TO_THE_64 - 2
    ensures ClosedForm(hash, m, i) == 2
  {
    var third := (HALF - 1) / 3;
    MulRegroup(3, third, Triangle(i));
    ModOfMultiple(hash, 3, third * Triangle(i));
  }

  lemma ClosedFormFails(hash: u64, m: nat)
    requires hash == TWO_TO_THE_64 - 2 && m == 3
    ensures MeetsClosedForm(hash, m, HALF + 1) && !MeetsClosedForm(hash, m, HALF + 2)
    ensures Position(hash, m, HALF + 2) != ClosedForm(hash, m, HALF + 2) == 2
  {
    ClosedFormHolds(hash, m, HALF + 1);
    ClosedFormOfThree(hash, m, HALF + 1);
    ClosedFormOfThree(hash, m, HALF + 2);
    OneTurn(hash, m, HALF + 1);
    assert Excess(hash, m, HALF + 1) == 1;
  }
}
