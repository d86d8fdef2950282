/** Which texts Multiaddr::parse accepts, and what printing and parsing do to one
another.
*/
module MultiaddrText {
  import opened Uint
  import opened Text
  import opened Multiaddr
  import Uuid
  import SemanticVersion

  // ---- The grammar, over the tokens between slashes ----

  datatype Item = Blank | Address(text: string, uuid: Uuid.Uuid)

  /** After the items nothing, or a version and at most one token that is dropped. */
  datatype Ending = Nothing | Version(text: string, version: SemanticVersion.SemanticVersion, dropped: seq<string>)

  ghost predicate GoodItem(i: Item) {
    i.Address? ==> Uuid.Spells(i.text, i.uuid)
  }

  ghost predicate GoodItems(items: seq<Item>) {
    forall i | i in items :: GoodItem(i)
  }

  ghost predicate GoodEnding(e: Ending) {
    e.Version? ==> |e.dropped| <= 1 && e.text != "" && e.text != "btle" && SemanticVersion.Denotes(e.text, e.version)
  }

  function OneTokens(i: Item): seq<string> {
    match i
    case Blank => [""]
    case Address(text, _) => ["btle", text]
  }

  function ItemTokens(items: seq<Item>): seq<string> {
    if items == [] then [] else OneTokens(items[0]) + ItemTokens(items[1..])
  }

  function EndingTokens(e: Ending): seq<string> {
    match e
    case Nothing => []
    case Version(text, _, dropped) => [text] + dropped
  }

  /** The addresses that an item spells. */
  function OneProtocol(i: Item): seq<Protocol> {
    match i
    case Blank => []
    case Address(_, u) => [BluetoothAddress(u)]
  }

  function Protocols(items: seq<Item>): seq<Protocol> {
    if items == [] then [] else OneProtocol(items[0]) + Protocols(items[1..])
  }

  function EndingVersion(e: Ending): Option<SemanticVersion.SemanticVersion> {
    match e
    case Nothing => None
    case Version(_, v, _) => Some(v)
  }

  /** The items and the ending derive the tokens, and mean m. */
  ghost predicate Derives(items: seq<Item>, e: Ending, tokens: seq<string>, m: Multiaddr) {
    && GoodItems(items) && GoodEnding(e)
    && tokens == ItemTokens(items) + EndingTokens(e)
    && m == Multiaddr(Protocols(items), [], EndingVersion(e))
  }

  ghost predicate InLanguage(tokens: seq<string>, m: Multiaddr) {
    exists items, e :: Derives(items, e, tokens, m)
  }

  /** Well-formed items, then a lone "btle". */
  ghost predicate EndsInBtle(tokens: seq<string>) {
    exists items :: GoodItems(items) && tokens == ItemTokens(items) + ["btle"]
  }

  // ---- Everything derived parses ----

  /** The parser takes one item off the front. */
  lemma ParseItem(i: Item, rest: seq<string>)
    requires GoodItem(i)
    ensures ParseTokens(OneTokens(i) + rest) == PrependAll(OneProtocol(i), ParseTokens(rest))
  {
    match i
    case Blank =>
      BlankStep([""] + rest, rest);
      PrependNothing([], ParseTokens(rest));
    case Address(text, u) =>
      Uuid.ParseExact(text, u);
      AddressStep(["btle", text] + rest, text, rest, Parsed(BluetoothAddress(u)));
  }

  lemma PrependTwice(ps: seq<Protocol>, qs: seq<Protocol>, r: Outcome<Multiaddr>)
    ensures PrependAll(ps, PrependAll(qs, r)) == PrependAll(ps + qs, r)
  {
    if r.Parsed? {
      assert ps + (qs + r.value.protocols) == ps + qs + r.value.protocols;
    }
  }

  lemma {:induction false} ParseItems(items: seq<Item>, rest: seq<string>)
    requires GoodItems(items)
    ensures ParseTokens(ItemTokens(items) + rest) == PrependAll(Protocols(items), ParseTokens(rest))
  {
    if items == [] {
      assert ItemTokens(items) + rest == rest;
      PrependNothing([], ParseTokens(rest));
    } else {
      var more := ItemTokens(items[1..]) + rest;
      ParseItem(items[0], more);
      ParseItems(items[1..], rest);
      PrependTwice(OneProtocol(items[0]), Protocols(items[1..]), ParseTokens(rest));
      AppendRegroup(OneTokens(items[0]), ItemTokens(items[1..]), rest);
    }
  }

  lemma ParseEnding(e: Ending)
    requires GoodEnding(e)
    ensures ParseTokens(EndingTokens(e)) == Parsed(Multiaddr([], [], EndingVersion(e)))
  {
    if e.Version? {
      SemanticVersion.ParseExact(e.text, e.version);
      OtherStep(EndingTokens(e), e.text, e.dropped, Some(e.version));
    }
  }

  lemma DerivedParses(items: seq<Item>, e: Ending, tokens: seq<string>, m: Multiaddr)
    requires Derives(items, e, tokens, m)
    ensures ParseTokens(tokens) == Parsed(m)
  {
    ParseItems(items, EndingTokens(e));
    ParseEnding(e);
    PrependNothing(Protocols(items), ParseTokens(EndingTokens(e)));
  }

  // ---- Everything that parses is derived ----

  lemma ItemInFront(i: Item, items: seq<Item>, tail: seq<string>, rest: seq<string>)
    requires GoodItem(i) && GoodItems(items) && tail == ItemTokens(items) + rest
    ensures GoodItems([i] + items)
    ensures ItemTokens([i] + items) == OneTokens(i) + ItemTokens(items)
    ensures Protocols([i] + items) == OneProtocol(i) + Protocols(items)
    ensures OneTokens(i) + tail == ItemTokens([i] + items) + rest
  {
    assert ([i] + items)[1..] == items;
    AppendRegroup(OneTokens(i), ItemTokens(items), rest);
  }

  /** The leading items of the tokens, and what is left when the parser stops. */
  lemma {:induction false} TakeItems(tokens: seq<string>) returns (items: seq<Item>, rest: seq<string>)
    ensures GoodItems(items) && tokens == ItemTokens(items) + rest
    ensures IsStopped(rest)
    decreases |tokens|
  {
    items, rest := [], tokens;
    if tokens != [] && tokens[0] == "" {
      items, rest := TakeItems(tokens[1..]);
      ItemInFront(Blank, items, tokens[1..], rest);
      assert tokens == [""] + tokens[1..];
      items := [Blank] + items;
    } else if |tokens| >= 2 && tokens[0] == "btle" {
      var parsed := Uuid.Parsed(tokens[1]);
      if parsed.Some? {
        var i := Address(tokens[1], parsed.value);
        Uuid.ParseExact(tokens[1], parsed.value);
        items, rest := TakeItems(tokens[2..]);
        ItemInFront(i, items, tokens[2..], rest);
        assert tokens == ["btle", tokens[1]] + tokens[2..];
        items := [i] + items;
      }
    }
  }

  /** The parser can go no further. */
  ghost predicate IsStopped(rest: seq<string>) {
    && (rest != [] ==> rest[0] != "")
    && (|rest| >= 2 && rest[0] == "btle" ==> Uuid.Parsed(rest[1]).None?)
  }

  lemma StoppedAtBtle(rest: seq<string>)
    requires rest != [] && rest[0] == "btle" && IsStopped(rest)
    ensures ParseTokens(rest) == if |rest| == 1 then Thrown else Rejected
  {
  }

  lemma StoppedAtOther(token: string, more: seq<string>)
    requires token != "" && token != "btle"
    ensures ParseTokens([token] + more).Parsed? || ParseTokens([token] + more).Rejected?
    ensures ParseTokens([token] + more).Parsed? ==> |more| <= 1 && SemanticVersion.Parsed(token).Some?
  {
    var v := SemanticVersion.Parsed(token);
    OtherStep([token] + more, token, more, v);
    if |more| > 1 || v.None? {
      assert ParseTokens([token] + more) == Rejected;
    } else {
      assert ParseTokens([token] + more) == Parsed(EMPTY.(version := v));
    }
  }

  lemma VersionEnding(token: string, more: seq<string>) returns (e: Ending)
    requires token != "" && token != "btle" && |more| <= 1 && SemanticVersion.Parsed(token).Some?
    ensures GoodEnding(e) && [token] + more == EndingTokens(e)
  {
    var v := SemanticVersion.Parsed(token).value;
    SemanticVersion.ParseExact(token, v);
    e := Version(token, v, more);
  }

  /** If it succeeds there, what is left is an ending. */
  lemma StoppedEnding(rest: seq<string>) returns (e: Ending)
    requires IsStopped(rest) && ParseTokens(rest).Parsed?
    ensures GoodEnding(e) && rest == EndingTokens(e)
  {
    e := Nothing;
    if rest != [] {
      var token, more := rest[0], rest[1..];
      assert rest == [token] + more;
      if token == "btle" {
        StoppedAtBtle(rest);
      } else {
        StoppedAtOther(token, more);
        e := VersionEnding(token, more);
      }
    }
  }

  lemma StoppedThrows(rest: seq<string>)
    requires IsStopped(rest)
    ensures ParseTokens(rest).Thrown? <==> rest == ["btle"]
    ensures !ParseTokens(rest).Undefined?
  {
    if rest != [] {
      if rest[0] == "btle" {
        StoppedAtBtle(rest);
        assert |rest| == 1 ==> rest == ["btle"];
      } else {
        assert rest == [rest[0]] + rest[1..];
        StoppedAtOther(rest[0], rest[1..]);
      }
    }
  }

  /** Exactly the texts of the language parse, to what they mean. */
  lemma ParseExact(str: string, m: Multiaddr)
    ensures ParseTokens(Split(str, '/')) == Parsed(m) <==> InLanguage(Split(str, '/'), m)
  {
    var tokens := Split(str, '/');
    if InLanguage(tokens, m) {
      var items, e :| Derives(items, e, tokens, m);
      DerivedParses(items, e, tokens, m);
    }
    if ParseTokens(tokens) == Parsed(m) {
      var items, rest := TakeItems(tokens);
      ParseItems(items, rest);
      var e := StoppedEnding(rest);
      var m' := Multiaddr(Protocols(items), [], EndingVersion(e));
      assert Derives(items, e, tokens, m');
      DerivedParses(items, e, tokens, m');
    }
  }

  /** Exactly the texts that end in a lone "btle" after well-formed items throw;
  all others are rejected, and none is undefined. */
  lemma ParseThrows(str: string)
    ensures ParseTokens(Split(str, '/')).Thrown? <==> EndsInBtle(Split(str, '/'))
    ensures !ParseTokens(Split(str, '/')).Undefined?
  {
    var tokens := Split(str, '/');
    var items, rest := TakeItems(tokens);
    ParseItems(items, rest);
    StoppedThrows(rest);
    if EndsInBtle(tokens) {
      var others :| GoodItems(others) && tokens == ItemTokens(others) + ["btle"];
      ParseItems(others, ["btle"]);
    }
  }

  // ---- Round trip ----

  lemma {:induction false} HexFree(bytes: seq<u8>, d: char)
    requires !IsHexDigit(d)
    ensures d !in Uuid.Hex(bytes)
  {
    if bytes != [] {
      HexFree(bytes[1..], d);
      assert d !in Uuid.HexByte(bytes[0]);
    }
  }

  lemma DashedFree(u: Uuid.Uuid, d: char)
    requires !IsHexDigit(d) && d != '-'
    ensures d !in Uuid.Dashed(u)
  {
    HexFree(u[..4], d);
    HexFree(u[4..6], d);
    HexFree(u[6..8], d);
    HexFree(u[8..10], d);
    HexFree(u[10..], d);
  }

  lemma VersionToken(v: SemanticVersion.SemanticVersion)
    ensures var s := SemanticVersion.ToString(v); '/' !in s && s != "" && s != "btle" && SemanticVersion.Denotes(s, v)
  {
    var s := SemanticVersion.ToString(v);
    assert IsDigits(Decimal(v.major)) && IsDigits(Decimal(v.minor)) && IsDigits(Decimal(v.patch));
    assert s[0] == Decimal(v.major)[0];
    assert IsDigit(s[0]);
    SemanticVersion.ParseToString(v);
    SemanticVersion.ParseExact(s, v);
  }

  function PrintedItem(p: Protocol): Item {
    Address(Uuid.Dashed(p.address), p.address)
  }

  /** The items that a list of protocols prints as. */
  function PrintedItems(ps: seq<Protocol>): seq<Item> {
    if ps == [] then [] else PrintedItems(ps[..|ps| - 1]) + [PrintedItem(ps[|ps| - 1])]
  }

  lemma {:induction false} ItemsAppend(a: seq<Item>, b: seq<Item>)
    ensures ItemTokens(a + b) == ItemTokens(a) + ItemTokens(b)
    ensures Protocols(a + b) == Protocols(a) + Protocols(b)
  {
    if a == [] {
      assert a + b == b;
    } else {
      assert (a + b)[1..] == a[1..] + b;
      ItemsAppend(a[1..], b);
    }
  }

  lemma PrintedItemMeans(p: Protocol)
    ensures GoodItem(PrintedItem(p)) && Free([p.Name(), Uuid.Dashed(p.address)], '/')
    ensures OneProtocol(PrintedItem(p)) == [p] && OneTokens(PrintedItem(p)) == [p.Name(), Uuid.Dashed(p.address)]
  {
    Uuid.DashedSpells(p.address);
    DashedFree(p.address, '/');
  }

  /** The items mean and print the protocols. */
  ghost predicate Renders(items: seq<Item>, ps: seq<Protocol>) {
    GoodItems(items) && Protocols(items) == ps && ItemTokens(items) == ProtocolTokens(ps)
  }

  lemma RenderNext(items: seq<Item>, ps: seq<Protocol>, i: Item, p: Protocol)
    requires Renders(items, ps) && GoodItem(i)
    requires OneProtocol(i) == [p] && OneTokens(i) == [p.Name(), Uuid.Dashed(p.address)]
    ensures Renders(items + [i], ps + [p])
  {
    ItemsAppend(items, [i]);
    assert [i][1..] == [];
    assert ItemTokens([i]) == OneTokens(i) && Protocols([i]) == OneProtocol(i);
    assert (ps + [p])[..|ps|] == ps;
  }

  lemma {:induction false} PrintedItemsMean(ps: seq<Protocol>)
    ensures Renders(PrintedItems(ps), ps)
  {
    if ps != [] {
      var front, p := ps[..|ps| - 1], ps[|ps| - 1];
      PrintedItemsMean(front);
      PrintedItemMeans(p);
      RenderNext(PrintedItems(front), front, PrintedItem(p), p);
      assert ps == front + [p] && PrintedItems(ps) == PrintedItems(front) + [PrintedItem(p)];
    }
  }

  lemma {:induction false} ProtocolTokensFree(ps: seq<Protocol>)
    ensures Free(ProtocolTokens(ps), '/')
  {
    if ps != [] {
      ProtocolTokensFree(ps[..|ps| - 1]);
      PrintedItemMeans(ps[|ps| - 1]);
    }
  }

  function PrintedEnding(v: Option<SemanticVersion.SemanticVersion>): Ending {
    match v
    case None => Nothing
    case Some(v) => Version(SemanticVersion.ToString(v), v, [])
  }

  lemma PrintedEndingMeans(v: Option<SemanticVersion.SemanticVersion>)
    ensures GoodEnding(PrintedEnding(v)) && EndingVersion(PrintedEnding(v)) == v
    ensures Free(EndingTokens(PrintedEnding(v)), '/')
  {
    if v.Some? {
      VersionToken(v.value);
    }
  }

  lemma PrintedDerives(m: Multiaddr)
    ensures Derives([Blank] + PrintedItems(m.protocols), PrintedEnding(m.version),
      [""] + PrintedTokens(m), m.(identifier := []))
    ensures Free([""] + PrintedTokens(m), '/')
  {
    var items, e := PrintedItems(m.protocols), PrintedEnding(m.version);
    PrintedItemsMean(m.protocols);
    PrintedEndingMeans(m.version);
    PrintedTokensAre(m);
    ItemInFront(Blank, items, ItemTokens(items) + EndingTokens(e), EndingTokens(e));
    assert OneProtocol(Blank) + Protocols(items) == Protocols(items);
  }

  lemma PrintedTokensAre(m: Multiaddr)
    ensures PrintedTokens(m) == ItemTokens(PrintedItems(m.protocols)) + EndingTokens(PrintedEnding(m.version))
    ensures Free([""] + PrintedTokens(m), '/')
  {
    PrintedItemsMean(m.protocols);
    ProtocolTokensFree(m.protocols);
    PrintedEndingMeans(m.version);
  }

  /** Parsing what was printed gives the address list and the version back, for
  every list and every version; only the identifier, never printed, is lost. */
  lemma ParsePrinted(m: Multiaddr)
    ensures ParseTokens(Split(Printed(m), '/')) == Parsed(m.(identifier := []))
  {
    var tokens := [""] + PrintedTokens(m);
    PrintedDerives(m);
    SplitJoin(tokens, '/');
    DerivedParses([Blank] + PrintedItems(m.protocols), PrintedEnding(m.version), tokens, m.(identifier := []));
  }

  /** Round trip on exactly the values without an identifier. */
  lemma RoundTrip(m: Multiaddr)
    ensures ParseTokens(Split(Printed(m), '/')) == Parsed(m) <==> m.identifier == []
  {
    ParsePrinted(m);
  }

  /** Whatever text was accepted, printing its value gives a normal form: a text
  that parses to the same value. */
  lemma NormalForm(str: string, m: Multiaddr)
    requires ParseTokens(Split(str, '/')) == Parsed(m)
    ensures m.identifier == []
    ensures ParseTokens(Split(Printed(m), '/')) == Parsed(m)
  {
    ParseExact(str, m);
    ParsePrinted(m);
  }

  lemma DroppedDerives(items: seq<Item>, text: string, v: SemanticVersion.SemanticVersion,
      tokens: seq<string>, m: Multiaddr, dropped: string)
    requires Derives(items, Version(text, v, []), tokens, m)
    ensures Derives(items, Version(text, v, [dropped]), tokens + [dropped], m)
  {
    AppendRegroup(ItemTokens(items), [text], [dropped]);
    assert [text] + [] + [dropped] == [text] + [dropped];
  }

  /** After any protocols and a version one more token is accepted and dropped,
  whatever it is. */
  lemma LastTokenDropped(m: Multiaddr, dropped: string)
    requires m.version.Some? && '/' !in dropped
    ensures ParseTokens(Split(Printed(m) + "/" + dropped, '/')) == Parsed(m.(identifier := []))
  {
    var parts, v := [""] + PrintedTokens(m), m.version.value;
    var items, text, m' := [Blank] + PrintedItems(m.protocols), SemanticVersion.ToString(v), m.(identifier := []);
    PrintedDerives(m);
    JoinLast(parts, dropped, '/');
    SplitJoin(parts + [dropped], '/');
    DroppedDerives(items, text, v, parts, m', dropped);
    DerivedParses(items, Version(text, v, [dropped]), parts + [dropped], m');
  }

  // ---- The texts of the unit test, for all addresses and versions ----

  lemma SplitThree(a: string, b: string, c: string)
    requires '/' !in a && '/' !in b && '/' !in c
    ensures Split("/" + a + "/" + b + "/" + c, '/') == ["", a, b, c]
  {
    assert "/" + a + "/" + b + "/" + c == "" + ['/'] + (a + ['/'] + (b + ['/'] + c));
    SplitToken("", a + ['/'] + (b + ['/'] + c), '/');
    SplitToken(a, b + ['/'] + c, '/');
    SplitToken(b, c, '/');
    SplitLast(c, '/');
  }

  /** An address and a version after it. */
  lemma VersionAfter(u: Uuid.Uuid, v: SemanticVersion.SemanticVersion)
    ensures ParseTokens(Split("/btle/" + Uuid.Dashed(u) + "/" + SemanticVersion.ToString(v), '/'))
      == Parsed(Multiaddr([BluetoothAddress(u)], [], Some(v)))
  {
    var m := Multiaddr([BluetoothAddress(u)], [], Some(v));
    PrintedText([], BluetoothAddress(u), [], v);
    PrintedText([BluetoothAddress(u)], BluetoothAddress(u), [], v);
    assert [] + [BluetoothAddress(u)] == [BluetoothAddress(u)];
    assert "" + "/btle/" == "/btle/";
    ParsePrinted(m);
  }

  lemma ThreeTokens(s: string, t: string)
    requires s != "" && s != "btle"
    ensures ParseTokens(["", s, "btle", t]) == Rejected
  {
    BlankStep(["", s, "btle", t], [s, "btle", t]);
    OtherStep([s, "btle", t], s, ["btle", t], SemanticVersion.Parsed(s));
  }

  /** A version before an address is rejected. */
  lemma VersionBefore(u: Uuid.Uuid, v: SemanticVersion.SemanticVersion)
    ensures ParseTokens(Split("/" + SemanticVersion.ToString(v) + "/btle/" + Uuid.Dashed(u), '/')) == Rejected
  {
    var s, t := SemanticVersion.ToString(v), Uuid.Dashed(u);
    VersionToken(v);
    DashedFree(u, '/');
    SlashedName("/" + s, t);
    SplitThree(s, "btle", t);
    ThreeTokens(s, t);
  }

  lemma DashedNoVersion(u: Uuid.Uuid)
    ensures SemanticVersion.Parsed(Uuid.Dashed(u)) == None
  {
    DashedFree(u, '.');
    SplitLast(Uuid.Dashed(u), '.');
  }

  lemma TwoAddresses(s: string, t: string)
    requires t != "" && t != "btle" && SemanticVersion.Parsed(t) == None
    ensures ParseTokens(["", "btle", s, t]) == Rejected
  {
    BlankStep(["", "btle", s, t], ["btle", s, t]);
    AddressStep(["btle", s, t], s, [t], AddressOutcome(s));
    OtherStep([t], t, [], None);
  }

  /** A version between "btle" and the address is rejected; even one with 32 digits
  in all, which is then taken for the address. */
  lemma VersionBetween(u: Uuid.Uuid, v: SemanticVersion.SemanticVersion)
    ensures ParseTokens(Split("/btle/" + SemanticVersion.ToString(v) + "/" + Uuid.Dashed(u), '/')) == Rejected
  {
    var s, t := SemanticVersion.ToString(v), Uuid.Dashed(u);
    VersionToken(v);
    DashedFree(u, '/');
    DashedNoVersion(u);
    Uuid.DashedShape(u, 0);
    BtleFirst(s);
    SplitThree("btle", s, t);
    TwoAddresses(s, t);
  }

  lemma BtleFirst(s: string)
    ensures "/btle/" + s == "/" + "btle" + "/" + s
  {
    SlashedName("", s);
  }
}
