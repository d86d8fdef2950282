/** Which packed bytes Multiaddr::parse_raw accepts, and that the packed and the
textual form agree.
*/
module MultiaddrPacked {
  import opened Uint
  import opened Text
  import opened Multiaddr
  import MultiaddrText
  import Uuid
  import Varint

  // ---- The grammar ----

  /** A LEB128 form of at most ten bytes: all marked but the last. */
  ghost predicate IsVarint(code: seq<u8>) {
    && 1 <= |code| <= 10
    && (forall i | 0 <= i < |code| - 1 :: code[i] >= 128)
    && code[|code| - 1] < 128
  }

  /** A form of the protocol number, padded or wrapped around 64 bits or not, and
  sixteen bytes of address. */
  datatype Item = Item(code: seq<u8>, uuid: Uuid.Uuid)

  ghost predicate GoodItem(i: Item) {
    IsVarint(i.code) && Varint.Sum(i.code) % TWO_TO_THE_64 == 150
  }

  ghost predicate GoodItems(items: seq<Item>) {
    forall i | i in items :: GoodItem(i)
  }

  function ItemBytes(items: seq<Item>): seq<u8> {
    if items == [] then [] else items[0].code + items[0].uuid + ItemBytes(items[1..])
  }

  function Protocols(items: seq<Item>): seq<Protocol> {
    if items == [] then [] else [BluetoothAddress(items[0].uuid)] + Protocols(items[1..])
  }

  ghost predicate AllMarked(bytes: seq<u8>) {
    forall i | 0 <= i < |bytes| :: bytes[i] >= 128
  }

  /** Items, then a tail of continuation bytes only. */
  ghost predicate Derives(items: seq<Item>, tail: seq<u8>, bytes: seq<u8>, m: Multiaddr) {
    && GoodItems(items) && AllMarked(tail) && |tail| <= 10
    && bytes == ItemBytes(items) + tail
    && m == Multiaddr(Protocols(items), [], None)
  }

  ghost predicate InLanguage(bytes: seq<u8>, m: Multiaddr) {
    exists items, tail :: Derives(items, tail, bytes, m)
  }

  /** Items, then ten continuation bytes and more. */
  ghost predicate RunsOver(bytes: seq<u8>) {
    exists items, tail :: GoodItems(items) && bytes == ItemBytes(items) + tail && |tail| > 10 && AllMarked(tail[..10])
  }

  // ---- Everything derived parses ----

  lemma {:induction false} VarintContinuations(code: seq<u8>, rest: seq<u8>)
    requires IsVarint(code)
    ensures Varint.Continuations(code + rest) == |code| - 1
    decreases |code|
  {
    if |code| > 1 {
      assert (code + rest)[1..] == code[1..] + rest;
      VarintContinuations(code[1..], rest);
    }
  }

  lemma DecodeVarint(code: seq<u8>, rest: seq<u8>)
    requires IsVarint(code)
    ensures Varint.Decode(code + rest) == Varint.Value(Varint.Sum(code) % TWO_TO_THE_64, |code|)
  {
    VarintContinuations(code, rest);
    assert (code + rest)[..|code|] == code;
  }

  /** The parser takes one item off the front. */
  lemma ParseItem(i: Item, rest: seq<u8>)
    requires GoodItem(i)
    ensures ParseRawBytes(i.code + i.uuid + rest) == Prepend(BluetoothAddress(i.uuid), ParseRawBytes(rest))
  {
    var bytes := i.code + (i.uuid + rest);
    assert i.code + i.uuid + rest == bytes;
    DecodeVarint(i.code, i.uuid + rest);
    RawStep(bytes, |i.code|);
    assert bytes[|i.code|..] == i.uuid + rest;
    assert (i.uuid + rest)[..Uuid.SIZE] == i.uuid && (i.uuid + rest)[Uuid.SIZE..] == rest;
  }

  lemma ItemsFirst(items: seq<Item>, rest: seq<u8>)
    requires items != []
    ensures ItemBytes(items) + rest == items[0].code + items[0].uuid + (ItemBytes(items[1..]) + rest)
  {
  }

  lemma {:induction false} ParseItems(items: seq<Item>, rest: seq<u8>)
    requires GoodItems(items)
    ensures ParseRawBytes(ItemBytes(items) + rest) == PrependAll(Protocols(items), ParseRawBytes(rest))
  {
    if items == [] {
      assert ItemBytes(items) + rest == rest;
      PrependNothing([], ParseRawBytes(rest));
    } else {
      ParseItems(items[1..], rest);
      ParseItem(items[0], ItemBytes(items[1..]) + rest);
      ItemsFirst(items, rest);
      PrependFirst(BluetoothAddress(items[0].uuid), Protocols(items[1..]), ParseRawBytes(rest));
    }
  }

  lemma PrependFirst(p: Protocol, ps: seq<Protocol>, r: Outcome<Multiaddr>)
    ensures Prepend(p, PrependAll(ps, r)) == PrependAll([p] + ps, r)
  {
    if r.Parsed? {
      assert [p] + (ps + r.value.protocols) == [p] + ps + r.value.protocols;
    }
  }

  lemma {:induction false} MarkedRun(bytes: seq<u8>, n: nat)
    requires n <= |bytes| && AllMarked(bytes[..n])
    ensures Varint.Continuations(bytes) >= n
    decreases n
  {
    if n > 0 {
      assert bytes[..n][0] == bytes[0];
      assert bytes[1..][..n - 1] == bytes[..n][1..];
      MarkedRun(bytes[1..], n - 1);
    }
  }

  lemma ParseTail(tail: seq<u8>)
    requires AllMarked(tail) && |tail| <= 10
    ensures ParseRawBytes(tail) == Parsed(EMPTY)
  {
    assert tail[..|tail|] == tail;
    MarkedRun(tail, |tail|);
  }

  lemma DerivedParses(items: seq<Item>, tail: seq<u8>, bytes: seq<u8>, m: Multiaddr)
    requires Derives(items, tail, bytes, m)
    ensures ParseRawBytes(bytes) == Parsed(m)
  {
    ParseItems(items, tail);
    ParseTail(tail);
    PrependNothing(Protocols(items), ParseRawBytes(tail));
  }

  // ---- Everything that parses is derived ----

  lemma VarintAtFront(bytes: seq<u8>)
    requires Varint.Decode(bytes).Value?
    ensures var n := Varint.Decode(bytes).read;
      n <= |bytes| && IsVarint(bytes[..n]) && Varint.Sum(bytes[..n]) % TWO_TO_THE_64 == Varint.Decode(bytes).value
  {
  }

  /** No further item is in front. */
  ghost predicate IsStopped(rest: seq<u8>) {
    match Varint.Decode(rest)
    case Value(code, n) => code != BTLE_CODE || |rest| - n < Uuid.SIZE
    case _ => true
  }

  lemma FirstItem(bytes: seq<u8>) returns (item: Item, more: seq<u8>)
    requires var d := Varint.Decode(bytes);
      d.Value? && d.value == BTLE_CODE && |bytes| - d.read >= Uuid.SIZE
    ensures GoodItem(item) && bytes == item.code + item.uuid + more && |more| < |bytes|
  {
    var n := Varint.Decode(bytes).read;
    VarintAtFront(bytes);
    item, more := Item(bytes[..n], bytes[n..][..Uuid.SIZE]), bytes[n..][Uuid.SIZE..];
    assert bytes[n..] == item.uuid + more;
    assert bytes == item.code + (item.uuid + more);
  }

  lemma ItemInFront(item: Item, items: seq<Item>, rest: seq<u8>)
    requires GoodItem(item) && GoodItems(items)
    ensures GoodItems([item] + items)
    ensures item.code + item.uuid + (ItemBytes(items) + rest) == ItemBytes([item] + items) + rest
  {
    assert ([item] + items)[1..] == items;
  }

  /** The leading items of the bytes, and what is left when the parser stops. */
  lemma {:induction false} TakeItems(bytes: seq<u8>) returns (items: seq<Item>, rest: seq<u8>)
    ensures GoodItems(items) && bytes == ItemBytes(items) + rest
    ensures IsStopped(rest)
    decreases |bytes|
  {
    var d := Varint.Decode(bytes);
    if d.Value? && d.value == BTLE_CODE && |bytes| - d.read >= Uuid.SIZE {
      var item, more := FirstItem(bytes);
      items, rest := TakeItems(more);
      ItemInFront(item, items, rest);
      items := [item] + items;
    } else {
      items, rest := [], bytes;
    }
  }

  /** What the parser makes of the bytes where it stops. */
  lemma Stopped(rest: seq<u8>)
    requires IsStopped(rest)
    ensures ParseRawBytes(rest).Parsed? ==> AllMarked(rest) && |rest| <= 10
    ensures ParseRawBytes(rest).Undefined? ==> |rest| > 10 && AllMarked(rest[..10])
    ensures !ParseRawBytes(rest).Thrown?
  {
  }

  /** Exactly the byte strings of the language parse, to what they mean. */
  lemma ParseRawExact(bytes: seq<u8>, m: Multiaddr)
    ensures ParseRawBytes(bytes) == Parsed(m) <==> InLanguage(bytes, m)
  {
    if InLanguage(bytes, m) {
      var items, tail :| Derives(items, tail, bytes, m);
      DerivedParses(items, tail, bytes, m);
    }
    if ParseRawBytes(bytes) == Parsed(m) {
      var items, rest := TakeItems(bytes);
      ParseItems(items, rest);
      Stopped(rest);
      assert Derives(items, rest, bytes, Multiaddr(Protocols(items), [], None));
      DerivedParses(items, rest, bytes, Multiaddr(Protocols(items), [], None));
    }
  }

  lemma OverrunUndefined(tail: seq<u8>)
    requires |tail| > 10 && AllMarked(tail[..10])
    ensures ParseRawBytes(tail) == Undefined
  {
    MarkedRun(tail, 10);
  }

  lemma RunsOverUndefined(bytes: seq<u8>)
    requires RunsOver(bytes)
    ensures ParseRawBytes(bytes) == Undefined
  {
    var items, tail :| GoodItems(items) && bytes == ItemBytes(items) + tail && |tail| > 10 && AllMarked(tail[..10]);
    ParseItems(items, tail);
    OverrunUndefined(tail);
  }

  /** Behaviour is undefined exactly on the inputs that run over ten continuation
  bytes; nothing throws, and all else is rejected. */
  lemma ParseRawUndefined(bytes: seq<u8>)
    ensures ParseRawBytes(bytes).Undefined? <==> RunsOver(bytes)
    ensures !ParseRawBytes(bytes).Thrown?
  {
    var items, rest := TakeItems(bytes);
    ParseItems(items, rest);
    Stopped(rest);
    if RunsOver(bytes) {
      RunsOverUndefined(bytes);
    }
  }

  // ---- The packed form and the textual form ----

  /** The packed form of an address list: number and raw bytes of each. */
  function Packed(ps: seq<Protocol>): seq<u8> {
    if ps == [] then [] else Varint.Encode(150) + ps[0].Raw() + Packed(ps[1..])
  }

  function PackedItems(ps: seq<Protocol>): seq<Item> {
    if ps == [] then [] else [Item(Varint.Encode(150), ps[0].address)] + PackedItems(ps[1..])
  }

  lemma CodeIsGood()
    ensures Varint.Encode(150) == [0x96, 0x01] && IsVarint([0x96, 0x01]) && Varint.Sum([0x96, 0x01]) == 150
  {
    assert Varint.Encode(1) == [1];
    assert Varint.Encode(150) == [150, 1];
    Varint.EncodeSum(150);
  }

  lemma {:induction false} PackedItemsMean(ps: seq<Protocol>)
    ensures GoodItems(PackedItems(ps)) && ItemBytes(PackedItems(ps)) == Packed(ps) && Protocols(PackedItems(ps)) == ps
  {
    if ps != [] {
      CodeIsGood();
      PackedItemsMean(ps[1..]);
    }
  }

  /** Packing and parsing give any address list back, also before a short run of
  continuation bytes. */
  lemma ParsePacked(ps: seq<Protocol>, tail: seq<u8>)
    requires AllMarked(tail) && |tail| <= 10
    ensures ParseRawBytes(Packed(ps) + tail) == Parsed(Multiaddr(ps, [], None))
  {
    PackedItemsMean(ps);
    DerivedParses(PackedItems(ps), tail, Packed(ps) + tail, Multiaddr(ps, [], None));
  }

  /** The two forms agree: pack, parse, print, parse is the identity on lists. */
  lemma FormsAgree(ps: seq<Protocol>)
    ensures var r := ParseRawBytes(Packed(ps));
      r.Parsed? && ParseTokens(Split(Printed(r.value), '/')) == Parsed(Multiaddr(ps, [], None))
  {
    ParsePacked(ps, []);
    assert Packed(ps) + [] == Packed(ps);
    MultiaddrText.ParsePrinted(Multiaddr(ps, [], None));
  }

  // ---- The protocol number, byte by byte ----

  /** The bytes 0x96 0x01 and sixteen more are an address. */
  lemma PackedAddress(u: Uuid.Uuid, rest: seq<u8>)
    ensures ParseRawBytes([0x96, 0x01] + u + rest) == Prepend(BluetoothAddress(u), ParseRawBytes(rest))
  {
    CodeIsGood();
    ParseItem(Item([0x96, 0x01], u), rest);
  }

  /** Any other number is rejected, whatever follows, and so is a short address. */
  lemma OtherCode(bytes: seq<u8>)
    requires Varint.Decode(bytes).Value?
    ensures Varint.Decode(bytes).value != 150 || |bytes| < Varint.Decode(bytes).read + 16 ==>
      ParseRawBytes(bytes) == Rejected
  {
  }
}
