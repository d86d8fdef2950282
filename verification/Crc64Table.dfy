/** crypto/crc64.cpp: the bit-serial step, the lookup table that stands for
eight of them, and the proof that all 256 entries are right.
*/
module Crc64Table {
  import opened Gf2
  import opened Bits

  /** The generator without its x^64 term, bit-reflected. */
  const POLY: bv64 := 0x95ac9329ac4bc9b5

  /** One clocking of the reflected shift register. */
  function BitStep(s: bv64): bv64 {
    if Odd(s) then Xor(Half(s), POLY) else Half(s)
  }

  function BitSteps(n: nat, s: bv64): bv64
    decreases n, s
  {
    if n == 0 then s else BitSteps(n - 1, BitStep(s))
  }

  /** A row of sixteen values. */
  function Row<T>(a0: T, a1: T, a2: T, a3: T, a4: T, a5: T, a6: T, a7: T,
      a8: T, a9: T, a10: T, a11: T, a12: T, a13: T, a14: T, a15: T): (row: seq<T>)
    ensures |row| == 16
    ensures row[0] == a0 && row[1] == a1 && row[2] == a2 && row[3] == a3
    ensures row[4] == a4 && row[5] == a5 && row[6] == a6 && row[7] == a7
    ensures row[8] == a8 && row[9] == a9 && row[10] == a10 && row[11] == a11
    ensures row[12] == a12 && row[13] == a13 && row[14] == a14 && row[15] == a15
  {
    [a0, a1, a2, a3, a4, a5, a6, a7, a8, a9, a10, a11, a12, a13, a14, a15]
  }

  // The 256 entries, sixteen to a row.
  const ROW_0: seq<bv64> := Row(
    0x0000000000000000, 0x7ad870c830358979, 0xf5b0e190606b12f2, 0x8f689158505e9b8b,
    0xc038e5739841b68f, 0xbae095bba8743ff6, 0x358804e3f82aa47d, 0x4f50742bc81f2d04,
    0xab28ecb46814fe75, 0xd1f09c7c5821770c, 0x5e980d24087fec87, 0x24407dec384a65fe,
    0x6b1009c7f05548fa, 0x11c8790fc060c183, 0x9ea0e857903e5a08, 0xe478989fa00bd371
  )
  const ROW_1: seq<bv64> := Row(
    0x7d08ff3b88be6f81, 0x07d08ff3b88be6f8, 0x88b81eabe8d57d73, 0xf2606e63d8e0f40a,
    0xbd301a4810ffd90e, 0xc7e86a8020ca5077, 0x4880fbd87094cbfc, 0x32588b1040a14285,
    0xd620138fe0aa91f4, 0xacf86347d09f188d, 0x2390f21f80c18306, 0x594882d7b0f40a7f,
    0x1618f6fc78eb277b, 0x6cc0863448deae02, 0xe3a8176c18803589, 0x997067a428b5bcf0
  )
  const ROW_2: seq<bv64> := Row(
    0xfa11fe77117cdf02, 0x80c98ebf2149567b, 0x0fa11fe77117cdf0, 0x75796f2f41224489,
    0x3a291b04893d698d, 0x40f16bccb908e0f4, 0xcf99fa94e9567b7f, 0xb5418a5cd963f206,
    0x513912c379682177, 0x2be1620b495da80e, 0xa489f35319033385, 0xde51839b2936bafc,
    0x9101f7b0e12997f8, 0xebd98778d11c1e81, 0x64b116208142850a, 0x1e6966e8b1770c73
  )
  const ROW_3: seq<bv64> := Row(
    0x8719014c99c2b083, 0xfdc17184a9f739fa, 0x72a9e0dcf9a9a271, 0x08719014c99c2b08,
    0x4721e43f0183060c, 0x3df994f731b68f75, 0xb29105af61e814fe, 0xc849756751dd9d87,
    0x2c31edf8f1d64ef6, 0x56e99d30c1e3c78f, 0xd9810c6891bd5c04, 0xa3597ca0a188d57d,
    0xec09088b6997f879, 0x96d1784359a27100, 0x19b9e91b09fcea8b, 0x636199d339c963f2
  )
  const ROW_4: seq<bv64> := Row(
    0xdf7adabd7a6e2d6f, 0xa5a2aa754a5ba416, 0x2aca3b2d1a053f9d, 0x50124be52a30b6e4,
    0x1f423fcee22f9be0, 0x659a4f06d21a1299, 0xeaf2de5e82448912, 0x902aae96b271006b,
    0x74523609127ad31a, 0x0e8a46c1224f5a63, 0x81e2d7997211c1e8, 0xfb3aa75142244891,
    0xb46ad37a8a3b6595, 0xceb2a3b2ba0eecec, 0x41da32eaea507767, 0x3b024222da65fe1e
  )
  const ROW_5: seq<bv64> := Row(
    0xa2722586f2d042ee, 0xd8aa554ec2e5cb97, 0x57c2c41692bb501c, 0x2d1ab4dea28ed965,
    0x624ac0f56a91f461, 0x1892b03d5aa47d18, 0x97fa21650afae693, 0xed2251ad3acf6fea,
    0x095ac9329ac4bc9b, 0x7382b9faaaf135e2, 0xfcea28a2faafae69, 0x8632586aca9a2710,
    0xc9622c4102850a14, 0xb3ba5c8932b0836d, 0x3cd2cdd162ee18e6, 0x460abd1952db919f
  )
  const ROW_6: seq<bv64> := Row(
    0x256b24ca6b12f26d, 0x5fb354025b277b14, 0xd0dbc55a0b79e09f, 0xaa03b5923b4c69e6,
    0xe553c1b9f35344e2, 0x9f8bb171c366cd9b, 0x10e3202993385610, 0x6a3b50e1a30ddf69,
    0x8e43c87e03060c18, 0xf49bb8b633338561, 0x7bf329ee636d1eea, 0x012b592653589793,
    0x4e7b2d0d9b47ba97, 0x34a35dc5ab7233ee, 0xbbcbcc9dfb2ca865, 0xc113bc55cb19211c
  )
  const ROW_7: seq<bv64> := Row(
    0x5863dbf1e3ac9dec, 0x22bbab39d3991495, 0xadd33a6183c78f1e, 0xd70b4aa9b3f20667,
    0x985b3e827bed2b63, 0xe2834e4a4bd8a21a, 0x6debdf121b863991, 0x1733afda2bb3b0e8,
    0xf34b37458bb86399, 0x8993478dbb8deae0, 0x06fbd6d5ebd3716b, 0x7c23a61ddbe6f812,
    0x3373d23613f9d516, 0x49aba2fe23cc5c6f, 0xc6c333a67392c7e4, 0xbc1b436e43a74e9d
  )
  const ROW_8: seq<bv64> := Row(
    0x95ac9329ac4bc9b5, 0xef74e3e19c7e40cc, 0x601c72b9cc20db47, 0x1ac40271fc15523e,
    0x5594765a340a7f3a, 0x2f4c0692043ff643, 0xa02497ca54616dc8, 0xdafce7026454e4b1,
    0x3e847f9dc45f37c0, 0x445c0f55f46abeb9, 0xcb349e0da4342532, 0xb1eceec59401ac4b,
    0xfebc9aee5c1e814f, 0x8464ea266c2b0836, 0x0b0c7b7e3c7593bd, 0x71d40bb60c401ac4
  )
  const ROW_9: seq<bv64> := Row(
    0xe8a46c1224f5a634, 0x927c1cda14c02f4d, 0x1d148d82449eb4c6, 0x67ccfd4a74ab3dbf,
    0x289c8961bcb410bb, 0x5244f9a98c8199c2, 0xdd2c68f1dcdf0249, 0xa7f41839ecea8b30,
    0x438c80a64ce15841, 0x3954f06e7cd4d138, 0xb63c61362c8a4ab3, 0xcce411fe1cbfc3ca,
    0x83b465d5d4a0eece, 0xf96c151de49567b7, 0x76048445b4cbfc3c, 0x0cdcf48d84fe7545
  )
  const ROW_A: seq<bv64> := Row(
    0x6fbd6d5ebd3716b7, 0x15651d968d029fce, 0x9a0d8ccedd5c0445, 0xe0d5fc06ed698d3c,
    0xaf85882d2576a038, 0xd55df8e515432941, 0x5a3569bd451db2ca, 0x20ed197575283bb3,
    0xc49581ead523e8c2, 0xbe4df122e51661bb, 0x3125607ab548fa30, 0x4bfd10b2857d7349,
    0x04ad64994d625e4d, 0x7e7514517d57d734, 0xf11d85092d094cbf, 0x8bc5f5c11d3cc5c6
  )
  const ROW_B: seq<bv64> := Row(
    0x12b5926535897936, 0x686de2ad05bcf04f, 0xe70573f555e26bc4, 0x9ddd033d65d7e2bd,
    0xd28d7716adc8cfb9, 0xa85507de9dfd46c0, 0x273d9686cda3dd4b, 0x5de5e64efd965432,
    0xb99d7ed15d9d8743, 0xc3450e196da80e3a, 0x4c2d9f413df695b1, 0x36f5ef890dc31cc8,
    0x79a59ba2c5dc31cc, 0x037deb6af5e9b8b5, 0x8c157a32a5b7233e, 0xf6cd0afa9582aa47
  )
  const ROW_C: seq<bv64> := Row(
    0x4ad64994d625e4da, 0x300e395ce6106da3, 0xbf66a804b64ef628, 0xc5bed8cc867b7f51,
    0x8aeeace74e645255, 0xf036dc2f7e51db2c, 0x7f5e4d772e0f40a7, 0x05863dbf1e3ac9de,
    0xe1fea520be311aaf, 0x9b26d5e88e0493d6, 0x144e44b0de5a085d, 0x6e963478ee6f8124,
    0x21c640532670ac20, 0x5b1e309b16452559, 0xd476a1c3461bbed2, 0xaeaed10b762e37ab
  )
  const ROW_D: seq<bv64> := Row(
    0x37deb6af5e9b8b5b, 0x4d06c6676eae0222, 0xc26e573f3ef099a9, 0xb8b627f70ec510d0,
    0xf7e653dcc6da3dd4, 0x8d3e2314f6efb4ad, 0x0256b24ca6b12f26, 0x788ec2849684a65f,
    0x9cf65a1b368f752e, 0xe62e2ad306bafc57, 0x6946bb8b56e467dc, 0x139ecb4366d1eea5,
    0x5ccebf68aecec3a1, 0x2616cfa09efb4ad8, 0xa97e5ef8cea5d153, 0xd3a62e30fe90582a
  )
  const ROW_E: seq<bv64> := Row(
    0xb0c7b7e3c7593bd8, 0xca1fc72bf76cb2a1, 0x45775673a732292a, 0x3faf26bb9707a053,
    0x70ff52905f188d57, 0x0a2722586f2d042e, 0x854fb3003f739fa5, 0xff97c3c80f4616dc,
    0x1bef5b57af4dc5ad, 0x61372b9f9f784cd4, 0xee5fbac7cf26d75f, 0x9487ca0fff135e26,
    0xdbd7be24370c7322, 0xa10fceec0739fa5b, 0x2e675fb4576761d0, 0x54bf2f7c6752e8a9
  )
  const ROW_F: seq<bv64> := Row(
    0xcdcf48d84fe75459, 0xb71738107fd2dd20, 0x387fa9482f8c46ab, 0x42a7d9801fb9cfd2,
    0x0df7adabd7a6e2d6, 0x772fdd63e7936baf, 0xf8474c3bb7cdf024, 0x829f3cf387f8795d,
    0x66e7a46c27f3aa2c, 0x1c3fd4a417c62355, 0x935745fc4798b8de, 0xe98f353477ad31a7,
    0xa6df411fbfb21ca3, 0xdc0731d78f8795da, 0x536fa08fdfd90e51, 0x29b7d047efec8728
  )

  function LowerRow(r: nat): (row: seq<bv64>)
    requires r < 8
    ensures |row| == 16
  {
    match r
    case 0 => ROW_0 case 1 => ROW_1 case 2 => ROW_2 case 3 => ROW_3
    case 4 => ROW_4 case 5 => ROW_5 case 6 => ROW_6 case _ => ROW_7
  }

  function UpperRow(r: nat): (row: seq<bv64>)
    requires 8 <= r < 16
    ensures |row| == 16
  {
    match r
    case 8 => ROW_8 case 9 => ROW_9 case 10 => ROW_A case 11 => ROW_B
    case 12 => ROW_C case 13 => ROW_D case 14 => ROW_E case _ => ROW_F
  }

  /** Entry i of the table. */
  function Entry(i: byte): bv64 {
    var r, c := (i >> 4) as int, (i & 0xf) as int;
    if r < 8 then LowerRow(r)[c] else UpperRow(r)[c]
  }

  // ---- The step, seen as division by the generator ----

  /** The generator's coefficients below x^64, highest first. */
  function G(): (g: Poly)
    ensures |g| == 64
  {
    Word(POLY)
  }

  // Byte by byte, POLY is the mirror image of the polynomial in the file header.

  lemma Mirror0() ensures LowBits(0x95, 8) == HighestFirst(0xad93d23594c935a9, 8) {}
  lemma Mirror1() ensures LowBits(0x95ac, 8) == HighestFirst(0xad93d23594c935, 8) {}
  lemma Mirror2() ensures LowBits(0x95ac93, 8) == HighestFirst(0xad93d23594c9, 8) {}
  lemma Mirror3() ensures LowBits(0x95ac9329, 8) == HighestFirst(0xad93d23594, 8) {}
  lemma Mirror4() ensures LowBits(0x95ac9329ac, 8) == HighestFirst(0xad93d235, 8) {}
  lemma Mirror5() ensures LowBits(0x95ac9329ac4b, 8) == HighestFirst(0xad93d2, 8) {}
  lemma Mirror6() ensures LowBits(0x95ac9329ac4bc9, 8) == HighestFirst(0xad93, 8) {}
  lemma Mirror7() ensures LowBits(0x95ac9329ac4bc9b5, 8) == HighestFirst(0xad, 8) {}

  lemma LowerHalfReflected()
    ensures LowBits(0x95ac9329, 32) == HighestFirst(0xad93d23594c935a9, 32)
  {
    var v := 0xad93d23594c935a9;
    Mirror0();
    ReflectByte(0x95, 0, v, 0xad93d23594c935a9, 0);
    Mirror1();
    ReflectByte(0x95ac, 0x95, v, 0xad93d23594c935, 1);
    Mirror2();
    ReflectByte(0x95ac93, 0x95ac, v, 0xad93d23594c9, 2);
    Mirror3();
    ReflectByte(0x95ac9329, 0x95ac93, v, 0xad93d23594, 3);
  }

  /** The coefficients are the bits of the polynomial as the header of
  crypto/crc64.cpp writes it: POLY is that number, reflected. */
  lemma GeneratorReflected()
    ensures G() == HighestFirst(0xad93d23594c935a9, 64)
  {
    var v := 0xad93d23594c935a9;
    LowerHalfReflected();
    Mirror4();
    ReflectByte(0x95ac9329ac, 0x95ac9329, v, 0xad93d235, 4);
    Mirror5();
    ReflectByte(0x95ac9329ac4b, 0x95ac9329ac, v, 0xad93d2, 5);
    Mirror6();
    ReflectByte(0x95ac9329ac4bc9, 0x95ac9329ac4b, v, 0xad93, 6);
    Mirror7();
    ReflectByte(0x95ac9329ac4bc9b5, 0x95ac9329ac4bc9, v, 0xad, 7);
  }

  /** The constant term of the generator is one. */
  lemma GeneratorConstantTerm()
    ensures G()[63]
  {
    GeneratorReflected();
  }

  lemma WordStep(s: bv64)
    ensures Word(BitStep(s)) == Step(Word(s), G())
  {
    WordHalf(s);
    WordXor(Half(s), POLY);
    assert Word(s)[0] == Odd(s);
  }

  lemma {:induction false} WordSteps(n: nat, s: bv64)
    ensures Word(BitSteps(n, s)) == Steps(n, Word(s), G())
    decreases n
  {
    if n > 0 {
      WordStep(s);
      WordSteps(n - 1, BitStep(s));
    }
  }

  lemma BitStepsXor(n: nat, a: bv64, b: bv64)
    ensures BitSteps(n, Xor(a, b)) == Xor(BitSteps(n, a), BitSteps(n, b))
  {
    var p, q, r := BitSteps(n, a), BitSteps(n, b), BitSteps(n, Xor(a, b));
    WordSteps(n, a);
    WordSteps(n, b);
    WordSteps(n, Xor(a, b));
    WordXor(a, b);
    WordXor(p, q);
    StepsAdditive(n, Word(a), Word(b), G());
    WordInjective(r, Xor(p, q));
  }

  lemma {:induction false} BitStepsLast(n: nat, s: bv64)
    ensures BitSteps(n, BitStep(s)) == BitStep(BitSteps(n, s))
    decreases n
  {
    if n > 0 {
      BitStepsLast(n - 1, BitStep(s));
    }
  }

  // ---- The table ----

  lemma HighestEntry()
    ensures BitSteps(8, 0x80) == POLY
  {
    assert BitSteps(8, 0x80) == BitSteps(6, 0x20);
    assert BitSteps(6, 0x20) == BitSteps(4, 8);
    assert BitSteps(4, 8) == BitSteps(2, 2);
    assert BitSteps(2, 2) == BitSteps(1, 1);
  }

  // A linear map that agrees with the table at the powers of two agrees with it
  // everywhere. Addition and the map enter as functions x and f on a type of
  // which nothing is known, so that only their laws are used, not the bits.

  ghost predicate Additive<T(!new)>(f: T -> T, x: (T, T) -> T) {
    forall a, b {:trigger f(x(a, b))} :: f(x(a, b)) == x(f(a), f(b))
  }

  /** Sixteen values, each the sum of those at the powers of two in its index. */
  ghost predicate SumsOfPowers<T>(s: seq<T>, x: (T, T) -> T) {
    && |s| == 16
    && s[3] == x(s[2], s[1]) && s[5] == x(s[4], s[1]) && s[6] == x(s[4], s[2]) && s[7] == x(s[4], s[3])
    && s[9] == x(s[8], s[1]) && s[10] == x(s[8], s[2]) && s[11] == x(s[8], s[3]) && s[12] == x(s[8], s[4])
    && s[13] == x(s[8], s[5]) && s[14] == x(s[8], s[6]) && s[15] == x(s[8], s[7])
  }

  /** f takes the powers of two of s to those of t. */
  ghost predicate Basis<T>(f: T -> T, x: (T, T) -> T, s: seq<T>, t: seq<T>) {
    && SumsOfPowers(s, x) && SumsOfPowers(t, x)
    && f(s[0]) == t[0] && f(s[1]) == t[1] && f(s[2]) == t[2] && f(s[4]) == t[4] && f(s[8]) == t[8]
  }

  lemma MapOfSums<T(!new)>(f: T -> T, x: (T, T) -> T, s: seq<T>, t: seq<T>, c: nat)
    requires Additive(f, x) && Basis(f, x, s, t) && c < 16
    ensures f(s[c]) == t[c]
  {
    assert f(s[3]) == t[3] && f(s[5]) == t[5] && f(s[6]) == t[6] && f(s[7]) == t[7];
    assert f(s[9]) == t[9] && f(s[10]) == t[10] && f(s[11]) == t[11] && f(s[12]) == t[12];
    assert f(s[13]) == t[13] && f(s[14]) == t[14] && f(s[15]) == t[15];
  }

  /** Linearity carries agreement from the two bases to the whole table. */
  lemma MapOfTable<T(!new)>(f: T -> T, x: (T, T) -> T, rows: seq<T>, heads: seq<T>,
      columns: seq<T>, first: seq<T>, r: nat, c: nat)
    requires Additive(f, x) && Basis(f, x, rows, heads) && Basis(f, x, columns, first) && r < 16 && c < 16
    ensures f(x(rows[r], columns[c])) == x(heads[r], first[c])
  {
    MapOfSums(f, x, rows, heads, r);
    MapOfSums(f, x, columns, first, c);
  }

  /** What the columns and the rows stand for in an index. */
  const COLUMNS: seq<bv64> := Row(0, 1, 2, 3, 4, 5, 6, 7, 8, 9, 10, 11, 12, 13, 14, 15)
  const ROWS: seq<bv64> := Row(
    0, 0x10, 0x20, 0x30, 0x40, 0x50, 0x60, 0x70, 0x80, 0x90, 0xa0, 0xb0, 0xc0, 0xd0, 0xe0, 0xf0)

  /** The first entry of each row. */
  const HEADS: seq<bv64> := Row(
    0x0000000000000000, 0x7d08ff3b88be6f81, 0xfa11fe77117cdf02, 0x8719014c99c2b083,
    0xdf7adabd7a6e2d6f, 0xa2722586f2d042ee, 0x256b24ca6b12f26d, 0x5863dbf1e3ac9dec,
    0x95ac9329ac4bc9b5, 0xe8a46c1224f5a634, 0x6fbd6d5ebd3716b7, 0x12b5926535897936,
    0x4ad64994d625e4da, 0x37deb6af5e9b8b5b, 0xb0c7b7e3c7593bd8, 0xcdcf48d84fe75459
  )

  ghost predicate IsXor(x: (bv64, bv64) -> bv64) {
    forall a, b :: x(a, b) == Xor(a, b)
  }

  lemma XorIndices(x: (bv64, bv64) -> bv64)
    requires IsXor(x)
    ensures SumsOfPowers(COLUMNS, x) && SumsOfPowers(ROWS, x)
  {
  }

  lemma XorColumns(x: (bv64, bv64) -> bv64)
    requires IsXor(x)
    ensures SumsOfPowers(ROW_0, x)
  {
  }

  lemma XorHeads(x: (bv64, bv64) -> bv64)
    requires IsXor(x)
    ensures SumsOfPowers(HEADS, x)
  {
  }

  lemma XorSums(x: (bv64, bv64) -> bv64)
    requires IsXor(x)
    ensures SumsOfPowers(COLUMNS, x) && SumsOfPowers(ROWS, x) && SumsOfPowers(HEADS, x) && SumsOfPowers(ROW_0, x)
  {
    XorIndices(x);
    XorColumns(x);
    XorHeads(x);
  }

  /** Eight steps agree with the table at the powers of two: from each of these
  entries, one more step gives the entry at half the index. (n stands for eight;
  a literal would have the solver unroll the steps.) */
  lemma EightStepsAtPowers(n: nat)
    requires n == 8
    ensures BitSteps(n, 0x80) == HEADS[8] && BitSteps(n, 0x40) == HEADS[4]
    ensures BitSteps(n, 0x20) == HEADS[2] && BitSteps(n, 0x10) == HEADS[1]
    ensures BitSteps(n, 8) == ROW_0[8] && BitSteps(n, 4) == ROW_0[4]
    ensures BitSteps(n, 2) == ROW_0[2] && BitSteps(n, 1) == ROW_0[1]
  {
    HighestEntry();
    StepsHalve(n, 0x80, 0x40, HEADS[8], HEADS[4]);
    StepsHalve(n, 0x40, 0x20, HEADS[4], HEADS[2]);
    StepsHalve(n, 0x20, 0x10, HEADS[2], HEADS[1]);
    StepsHalve(n, 0x10, 8, HEADS[1], ROW_0[8]);
    StepsHalve(n, 8, 4, ROW_0[8], ROW_0[4]);
    StepsHalve(n, 4, 2, ROW_0[4], ROW_0[2]);
    StepsHalve(n, 2, 1, ROW_0[2], ROW_0[1]);
  }

  lemma StepsHalve(n: nat, s: bv64, h: bv64, t: bv64, u: bv64)
    requires BitSteps(n, s) == t && h == BitStep(s) && u == BitStep(t)
    ensures BitSteps(n, h) == u
  {
    BitStepsLast(n, s);
  }

  // Each row is the first, with its head added.

  ghost predicate RowAdds(row: seq<bv64>, first: seq<bv64>) {
    && |row| == 16 && |first| == 16
    && row[0] == Xor(row[0], first[0]) && row[1] == Xor(row[0], first[1])
    && row[2] == Xor(row[0], first[2]) && row[3] == Xor(row[0], first[3])
    && row[4] == Xor(row[0], first[4]) && row[5] == Xor(row[0], first[5])
    && row[6] == Xor(row[0], first[6]) && row[7] == Xor(row[0], first[7])
    && row[8] == Xor(row[0], first[8]) && row[9] == Xor(row[0], first[9])
    && row[10] == Xor(row[0], first[10]) && row[11] == Xor(row[0], first[11])
    && row[12] == Xor(row[0], first[12]) && row[13] == Xor(row[0], first[13])
    && row[14] == Xor(row[0], first[14]) && row[15] == Xor(row[0], first[15])
  }

  lemma RowAddsAt(row: seq<bv64>, first: seq<bv64>, c: nat)
    requires RowAdds(row, first) && c < 16
    ensures row[c] == Xor(row[0], first[c])
  {
    match c
    case 0 => case 1 => case 2 => case 3 => case 4 => case 5 => case 6 => case 7 =>
    case 8 => case 9 => case 10 => case 11 => case 12 => case 13 => case 14 => case _ =>
  }

  lemma Row0Adds() ensures RowAdds(ROW_0, ROW_0) {}
  lemma Row1Adds() ensures RowAdds(ROW_1, ROW_0) {}
  lemma Row2Adds() ensures RowAdds(ROW_2, ROW_0) {}
  lemma Row3Adds() ensures RowAdds(ROW_3, ROW_0) {}
  lemma Row4Adds() ensures RowAdds(ROW_4, ROW_0) {}
  lemma Row5Adds() ensures RowAdds(ROW_5, ROW_0) {}
  lemma Row6Adds() ensures RowAdds(ROW_6, ROW_0) {}
  lemma Row7Adds() ensures RowAdds(ROW_7, ROW_0) {}
  lemma Row8Adds() ensures RowAdds(ROW_8, ROW_0) {}
  lemma Row9Adds() ensures RowAdds(ROW_9, ROW_0) {}
  lemma RowAAdds() ensures RowAdds(ROW_A, ROW_0) {}
  lemma RowBAdds() ensures RowAdds(ROW_B, ROW_0) {}
  lemma RowCAdds() ensures RowAdds(ROW_C, ROW_0) {}
  lemma RowDAdds() ensures RowAdds(ROW_D, ROW_0) {}
  lemma RowEAdds() ensures RowAdds(ROW_E, ROW_0) {}
  lemma RowFAdds() ensures RowAdds(ROW_F, ROW_0) {}

  lemma LowerRowAdds(r: nat)
    requires r < 8
    ensures RowAdds(LowerRow(r), ROW_0)
  {
    match r
    case 0 => Row0Adds();
    case 1 => Row1Adds();
    case 2 => Row2Adds();
    case 3 => Row3Adds();
    case 4 => Row4Adds();
    case 5 => Row5Adds();
    case 6 => Row6Adds();
    case _ => Row7Adds();
  }

  lemma UpperRowAdds(r: nat)
    requires 8 <= r < 16
    ensures RowAdds(UpperRow(r), ROW_0)
  {
    match r
    case 8 => Row8Adds();
    case 9 => Row9Adds();
    case 10 => RowAAdds();
    case 11 => RowBAdds();
    case 12 => RowCAdds();
    case 13 => RowDAdds();
    case 14 => RowEAdds();
    case _ => RowFAdds();
  }

  lemma LowerHeads(r: nat)
    requires r < 8
    ensures LowerRow(r)[0] == HEADS[r]
  {
  }

  lemma UpperHeads(r: nat)
    requires 8 <= r < 16
    ensures UpperRow(r)[0] == HEADS[r]
  {
  }

  lemma RowColumn(i: byte, r: nat, c: nat)
    requires r == (i >> 4) as int && c == (i & 0xf) as int
    ensures r < 16 && c < 16
    ensures Entry(i) == Xor(HEADS[r], ROW_0[c])
  {
    if r < 8 {
      LowerRowAdds(r);
      RowAddsAt(LowerRow(r), ROW_0, c);
      LowerHeads(r);
    } else {
      UpperRowAdds(r);
      RowAddsAt(UpperRow(r), ROW_0, c);
      UpperHeads(r);
    }
  }

  lemma IndexRowColumn(i: byte, r: nat, c: nat)
    requires r == (i >> 4) as int && c == (i & 0xf) as int
    ensures r < 16 && c < 16 && Widen(i) == Xor(ROWS[r], COLUMNS[c])
  {
    assert ROWS[r] == Widen((i >> 4) << 4);
    assert COLUMNS[c] == Widen(i & 0xf);
  }

  lemma BitStepsAdditive(f: bv64 -> bv64, x: (bv64, bv64) -> bv64, n: nat)
    requires IsXor(x) && forall s :: f(s) == BitSteps(n, s)
    ensures Additive(f, x) && f(0) == 0
  {
    forall a: bv64, b: bv64
      ensures f(x(a, b)) == x(f(a), f(b))
    {
      BitStepsXor(n, a, b);
    }
    BitStepsXor(n, 0, 0);
    XorSelf(f(0));
  }

  lemma RowsBasis(f: bv64 -> bv64, x: (bv64, bv64) -> bv64, n: nat)
    requires n == 8 && f(0) == 0 && (forall s {:trigger BitSteps(n, s)} :: f(s) == BitSteps(n, s))
    requires SumsOfPowers(ROWS, x) && SumsOfPowers(HEADS, x)
    ensures Basis(f, x, ROWS, HEADS)
  {
    EightStepsAtPowers(n);
  }

  lemma ColumnsBasis(f: bv64 -> bv64, x: (bv64, bv64) -> bv64, n: nat)
    requires n == 8 && f(0) == 0 && (forall s {:trigger BitSteps(n, s)} :: f(s) == BitSteps(n, s))
    requires SumsOfPowers(COLUMNS, x) && SumsOfPowers(ROW_0, x)
    ensures Basis(f, x, COLUMNS, ROW_0)
  {
    EightStepsAtPowers(n);
  }

  lemma TableAgrees(f: bv64 -> bv64, x: (bv64, bv64) -> bv64, n: nat, r: nat, c: nat)
    requires n == 8 && r < 16 && c < 16
    requires forall a, b {:trigger Xor(a, b)} :: x(a, b) == Xor(a, b)
    requires forall s {:trigger BitSteps(n, s)} :: f(s) == BitSteps(n, s)
    ensures f(x(ROWS[r], COLUMNS[c])) == x(HEADS[r], ROW_0[c])
  {
    XorSums(x);
    BitStepsAdditive(f, x, n);
    RowsBasis(f, x, n);
    ColumnsBasis(f, x, n);
    MapOfTable(f, x, ROWS, HEADS, COLUMNS, ROW_0, r, c);
  }

  /** Every entry of the table is eight bit-serial steps of its index. */
  lemma EntryRight(i: byte)
    ensures Entry(i) == BitSteps(8, Widen(i))
  {
    var n := 8;
    var f := (s: bv64) => BitSteps(n, s);
    var x := (a: bv64, b: bv64) => Xor(a, b);
    var r, c := (i >> 4) as int, (i & 0xf) as int;
    RowColumn(i, r, c);
    IndexRowColumn(i, r, c);
    TableAgrees(f, x, n, r, c);
  }
}
