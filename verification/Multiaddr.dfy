/** utils/multiaddr.h and utils/multiaddr.cpp: the two tokenizers, the two
parsers and the printer.
*/
module Multiaddr {
  import opened Uint
  import opened Text
  import Uuid
  import Varint
  import SemanticVersion

  /** The one protocol there is. */
  datatype Protocol = BluetoothAddress(address: Uuid.Uuid) {
    function Name(): string { "btle" }

    function Raw(): seq<u8> { address }
  }

  datatype Multiaddr = Multiaddr(
    protocols: seq<Protocol>, identifier: seq<u8>, version: Option<SemanticVersion.SemanticVersion>)

  /** How a parser ends: with a value, with std::nullopt, with an exception out of
  std::optional::value, or in undefined behaviour of the varint decoder. */
  datatype Outcome<+T> = Parsed(value: T) | Rejected | Thrown | Undefined

  const EMPTY := Multiaddr([], [], None)

  const BTLE_CODE: u64 := 150

  function Prepend(p: Protocol, r: Outcome<Multiaddr>): Outcome<Multiaddr> {
    if r.Parsed? then Parsed(r.value.(protocols := [p] + r.value.protocols)) else r
  }

  function PrependAll(ps: seq<Protocol>, r: Outcome<Multiaddr>): Outcome<Multiaddr> {
    if r.Parsed? then Parsed(r.value.(protocols := ps + r.value.protocols)) else r
  }

  // ---- Tokenizers ----

  /** A cursor over the '/'-separated tokens of a text. */
  class StringTokenizer {
    const tokens: seq<string>
    var current: nat

    ghost predicate Valid()
      reads this
    {
      current <= |tokens|
    }

    /** The tokens still to come. */
    ghost function Rest(): seq<string>
      reads this
      requires Valid()
    {
      tokens[current..]
    }

    constructor (str: string)
      ensures Valid() && Rest() == Split(str, '/')
    {
      tokens := Split(str, '/');
      current := 0;
    }

    method Next() returns (token: Option<string>)
      requires Valid()
      modifies this
      ensures Valid()
      ensures old(Rest()) == [] ==> token == None && Rest() == []
      ensures old(Rest()) != [] ==> token == Some(old(Rest())[0]) && Rest() == old(Rest())[1..]
    {
      if current != |tokens| {
        token := Some(tokens[current]);
        current := current + 1;
      } else {
        token := None;
      }
    }

    /** True at the end, and also with one token to go. */
    predicate IsDone()
      reads this
      requires Valid()
      ensures IsDone() <==> |Rest()| <= 1
    {
      current == |tokens| || current + 1 == |tokens|
    }
  }

  /** A cursor over packed bytes. */
  class RawTokenizer {
    const bytes: seq<u8>
    var current: nat

    /** The cursor never passes the end of the buffer. */
    ghost predicate Valid()
      reads this
    {
      current <= |bytes|
    }

    ghost function Rest(): seq<u8>
      reads this
      requires Valid()
    {
      bytes[current..]
    }

    constructor (bytes: seq<u8>)
      ensures Valid() && Rest() == bytes
    {
      this.bytes := bytes;
      current := 0;
    }

    method ReadUleb128() returns (r: Varint.Decoded)
      requires Valid()
      modifies this
      ensures Valid() && r == Varint.Decode(old(Rest()))
      ensures r.Value? ==> 0 < r.read <= |old(Rest())| && Rest() == old(Rest())[r.read..]
      ensures !r.Value? ==> Rest() == old(Rest())
    {
      r := Varint.DecodeVaruint(bytes[current..]);
      if r.Value? {
        current := current + r.read;
      }
    }

    method ReadBytes(count: nat) returns (r: Option<seq<u8>>)
      requires Valid()
      modifies this
      ensures Valid()
      ensures r.Some? <==> count <= |old(Rest())|
      ensures r.Some? ==> r.value == old(Rest())[..count] && Rest() == old(Rest())[count..]
      ensures r.None? ==> Rest() == old(Rest())
    {
      if current + count > |bytes| {
        return None;
      }
      r := Some(bytes[current..current + count]);
      current := current + count;
    }
  }

  // ---- The textual parser ----

  function AddressOutcome(token: string): Outcome<Protocol> {
    match Uuid.Parsed(token)
    case None => Rejected
    case Some(u) => Parsed(BluetoothAddress(u))
  }

  /** What Parse makes of a list of tokens. */
  function ParseTokens(tokens: seq<string>): Outcome<Multiaddr>
    decreases |tokens|
  {
    if tokens == [] then Parsed(EMPTY)
    else if tokens[0] == "" then ParseTokens(tokens[1..])
    else if tokens[0] == "btle" then
      if |tokens| == 1 then Thrown
      else match AddressOutcome(tokens[1])
        case Parsed(p) => Prepend(p, ParseTokens(tokens[2..]))
        case _ => Rejected
    else if |tokens| <= 2 then
      match SemanticVersion.Parsed(tokens[0])
      case None => Rejected
      case Some(v) => Parsed(EMPTY.(version := Some(v)))
    else Rejected
  }

  /** One address from the tokens after "btle"; with none left, std::optional::value throws. */
  function ProtocolOutcome(rest: seq<string>): Outcome<Protocol> {
    if rest == [] then Thrown else AddressOutcome(rest[0])
  }

  method ParseToProtocol(iter: StringTokenizer) returns (r: Outcome<Protocol>)
    requires iter.Valid()
    modifies iter
    ensures iter.Valid()
    ensures r == ProtocolOutcome(old(iter.Rest()))
    ensures iter.Rest() == if old(iter.Rest()) == [] then [] else old(iter.Rest())[1..]
  {
    var token := iter.Next();
    if token.None? {
      return Thrown;
    }
    var address := Uuid.Parse(token.value);
    if address.None? {
      return Rejected;
    }
    return Parsed(BluetoothAddress(address.value));
  }

  // What the branches of the loop do to the tokens.

  lemma BlankStep(tokens: seq<string>, rest: seq<string>)
    requires tokens == [""] + rest
    ensures ParseTokens(tokens) == ParseTokens(rest)
  {
    assert tokens[1..] == rest;
  }

  lemma AddressStep(tokens: seq<string>, token: string, rest: seq<string>, r: Outcome<Protocol>)
    requires tokens == ["btle", token] + rest && r == AddressOutcome(token)
    ensures ParseTokens(tokens) == if r.Parsed? then Prepend(r.value, ParseTokens(rest)) else Rejected
  {
    assert tokens[2..] == rest;
  }

  lemma OtherStep(tokens: seq<string>, token: string, rest: seq<string>, v: Option<SemanticVersion.SemanticVersion>)
    requires tokens == [token] + rest && token != "" && token != "btle" && v == SemanticVersion.Parsed(token)
    ensures ParseTokens(tokens) == if |rest| > 1 || v.None? then Rejected else Parsed(EMPTY.(version := v))
  {
  }

  lemma PrependOne(ps: seq<Protocol>, p: Protocol, r: Outcome<Multiaddr>)
    ensures PrependAll(ps, Prepend(p, r)) == PrependAll(ps + [p], r)
  {
    if r.Parsed? {
      assert ps + ([p] + r.value.protocols) == ps + [p] + r.value.protocols;
    }
  }

  lemma PrependNothing(ps: seq<Protocol>, r: Outcome<Multiaddr>)
    ensures PrependAll([], r) == r
    ensures r.Parsed? && r.value.protocols == [] ==> PrependAll(ps, r) == Parsed(r.value.(protocols := ps))
  {
    if r.Parsed? {
      assert [] + r.value.protocols == r.value.protocols;
      if r.value.protocols == [] {
        assert ps + [] == ps;
      }
    }
  }

  /** With ps parsed so far, what is left decides what becomes of all. */
  ghost predicate Leads(all: seq<string>, ps: seq<Protocol>, left: seq<string>) {
    ParseTokens(all) == PrependAll(ps, ParseTokens(left))
  }

  lemma StartLeads(all: seq<string>)
    ensures Leads(all, [], all)
  {
    PrependNothing([], ParseTokens(all));
  }

  lemma BlankLeads(all: seq<string>, ps: seq<Protocol>, rest: seq<string>)
    requires Leads(all, ps, [""] + rest)
    ensures Leads(all, ps, rest)
  {
    BlankStep([""] + rest, rest);
  }

  lemma AddressLeads(all: seq<string>, ps: seq<Protocol>, rest: seq<string>, r: Outcome<Protocol>)
    requires Leads(all, ps, ["btle"] + rest) && r == ProtocolOutcome(rest)
    ensures r.Parsed? ==> rest != [] && Leads(all, ps + [r.value], rest[1..])
    ensures !r.Parsed? ==> ParseTokens(all) == if r.Thrown? then Thrown else Rejected
  {
    if rest != [] {
      assert ["btle"] + rest == ["btle", rest[0]] + rest[1..];
      AddressStep(["btle"] + rest, rest[0], rest[1..], r);
      if r.Parsed? {
        PrependOne(ps, r.value, ParseTokens(rest[1..]));
      }
    }
  }

  lemma OtherLeads(all: seq<string>, ps: seq<Protocol>, token: string, rest: seq<string>,
      v: Option<SemanticVersion.SemanticVersion>)
    requires Leads(all, ps, [token] + rest) && token != "" && token != "btle" && v == SemanticVersion.Parsed(token)
    ensures ParseTokens(all) == if |rest| > 1 || v.None? then Rejected else Parsed(Multiaddr(ps, [], v))
  {
    OtherStep([token] + rest, token, rest, v);
    PrependNothing(ps, ParseTokens([token] + rest));
  }

  lemma EndLeads(all: seq<string>, ps: seq<Protocol>)
    requires Leads(all, ps, [])
    ensures ParseTokens(all) == Parsed(Multiaddr(ps, [], None))
  {
    PrependNothing(ps, ParseTokens([]));
  }

  /** The token in hand, in front of those still to come. */
  function InHand(token: Option<string>, rest: seq<string>): seq<string> {
    if token.Some? then [token.value] + rest else rest
  }

  lemma NextInHand(before: seq<string>, token: Option<string>, rest: seq<string>)
    requires before == [] ==> token == None && rest == []
    requires before != [] ==> token == Some(before[0]) && rest == before[1..]
    ensures InHand(token, rest) == before
  {
  }

  method Parse(str: string) returns (r: Outcome<Multiaddr>)
    ensures r == ParseTokens(Split(str, '/'))
  {
    ghost var all := Split(str, '/');
    var multiaddr := EMPTY;
    var tokenizer := new StringTokenizer(str);
    StartLeads(all);
    var protocol := tokenizer.Next();
    NextInHand(all, protocol, tokenizer.Rest());
    while protocol.Some?
      invariant tokenizer.Valid() && multiaddr == Multiaddr(multiaddr.protocols, [], None)
      invariant Leads(all, multiaddr.protocols, InHand(protocol, tokenizer.Rest()))
      invariant protocol.None? ==> tokenizer.Rest() == []
      decreases |InHand(protocol, tokenizer.Rest())|
    {
      ghost var rest := tokenizer.Rest();
      if protocol.value == "" {
        BlankLeads(all, multiaddr.protocols, rest);
      } else if protocol.value == "btle" {
        var result := ParseToProtocol(tokenizer);
        AddressLeads(all, multiaddr.protocols, rest, result);
        if !result.Parsed? {
          return if result.Thrown? then Thrown else Rejected;
        }
        multiaddr := multiaddr.(protocols := multiaddr.protocols + [result.value]);
      } else {
        OtherLeads(all, multiaddr.protocols, protocol.value, rest, SemanticVersion.Parsed(protocol.value));
        if tokenizer.IsDone() {
          var version := SemanticVersion.Parse(protocol.value);
          if version.Error? {
            return Rejected;
          }
          multiaddr := multiaddr.(version := Some(version.version));
          return Parsed(multiaddr);
        } else {
          return Rejected;
        }
      }
      ghost var left := tokenizer.Rest();
      protocol := tokenizer.Next();
      NextInHand(left, protocol, tokenizer.Rest());
    }
    EndLeads(all, multiaddr.protocols);
    return Parsed(multiaddr);
  }

  // ---- The binary parser ----

  /** What ParseRaw makes of packed bytes. */
  function ParseRawBytes(bytes: seq<u8>): Outcome<Multiaddr>
    decreases |bytes|
  {
    match Varint.Decode(bytes)
    case NoValue => Parsed(EMPTY)
    case Undefined => Undefined
    case Value(code, read) =>
      if code != BTLE_CODE || |bytes| - read < Uuid.SIZE then Rejected
      else Prepend(BluetoothAddress(bytes[read..][..Uuid.SIZE]), ParseRawBytes(bytes[read..][Uuid.SIZE..]))
  }

  method ParseRawToProtocol(tokenizer: RawTokenizer) returns (r: Outcome<Protocol>)
    requires tokenizer.Valid()
    modifies tokenizer
    ensures tokenizer.Valid()
    ensures r.Parsed? <==> |old(tokenizer.Rest())| >= Uuid.SIZE
    ensures r.Parsed? ==> r.value == BluetoothAddress(old(tokenizer.Rest())[..Uuid.SIZE])
    ensures r.Parsed? ==> tokenizer.Rest() == old(tokenizer.Rest())[Uuid.SIZE..]
    ensures !r.Parsed? ==> r == Rejected
  {
    var bytes := tokenizer.ReadBytes(Uuid.SIZE);
    if bytes.None? {
      return Rejected;
    }
    var address := Uuid.ParseRaw(bytes.value);
    if address.None? {
      return Rejected;
    }
    return Parsed(BluetoothAddress(address.value));
  }

  lemma RawStep(bytes: seq<u8>, read: nat)
    requires Varint.Decode(bytes) == Varint.Value(BTLE_CODE, read) && read + Uuid.SIZE <= |bytes|
    ensures ParseRawBytes(bytes)
      == Prepend(BluetoothAddress(bytes[read..][..Uuid.SIZE]), ParseRawBytes(bytes[read..][Uuid.SIZE..]))
  {
  }

  method ParseRaw(bytes: seq<u8>) returns (r: Outcome<Multiaddr>)
    ensures r == ParseRawBytes(bytes)
  {
    var multiaddr := EMPTY;
    var tokenizer := new RawTokenizer(bytes);
    PrependNothing([], ParseRawBytes(bytes));
    while true
      invariant tokenizer.Valid() && multiaddr == EMPTY.(protocols := multiaddr.protocols)
      invariant ParseRawBytes(bytes) == PrependAll(multiaddr.protocols, ParseRawBytes(tokenizer.Rest()))
      decreases |tokenizer.Rest()|
    {
      ghost var rest := tokenizer.Rest();
      var protocol := tokenizer.ReadUleb128();
      if protocol.NoValue? {
        PrependNothing(multiaddr.protocols, ParseRawBytes(rest));
        return Parsed(multiaddr);
      }
      if protocol.Undefined? {
        return Undefined;
      }
      if protocol.value != BTLE_CODE {
        return Rejected;
      }
      var result := ParseRawToProtocol(tokenizer);
      if !result.Parsed? {
        return Rejected;
      }
      RawStep(rest, protocol.read);
      PrependOne(multiaddr.protocols, result.value, ParseRawBytes(tokenizer.Rest()));
      multiaddr := multiaddr.(protocols := multiaddr.protocols + [result.value]);
    }
  }

  // ---- The printer ----

  function ProtocolTokens(ps: seq<Protocol>): seq<string> {
    if ps == [] then []
    else ProtocolTokens(ps[..|ps| - 1]) + [ps[|ps| - 1].Name(), Uuid.Dashed(ps[|ps| - 1].address)]
  }

  function PrintedTokens(m: Multiaddr): seq<string> {
    ProtocolTokens(m.protocols) + (if m.version.Some? then [SemanticVersion.ToString(m.version.value)] else [])
  }

  /** The text of m: its tokens, each after a slash. The identifier is not printed. */
  function Printed(m: Multiaddr): string {
    Join([""] + PrintedTokens(m), '/')
  }

  lemma {:induction false} JoinLast(parts: seq<string>, last: string, d: char)
    requires parts != []
    ensures Join(parts + [last], d) == Join(parts, d) + [d] + last
  {
    if |parts| == 1 {
      assert (parts + [last])[1..] == [last];
    } else {
      JoinLast(parts[1..], last, d);
      assert (parts + [last])[1..] == parts[1..] + [last];
    }
  }

  /** The text of the protocols alone. */
  function PrintedProtocols(ps: seq<Protocol>): string {
    Join([""] + ProtocolTokens(ps), '/')
  }

  lemma PrintTwo(parts: seq<string>, name: string, text: string)
    requires parts != []
    ensures Join(parts + [name, text], '/') == Join(parts, '/') + "/" + name + "/" + text
  {
    assert parts + [name, text] == parts + [name] + [text];
    JoinLast(parts, name, '/');
    JoinLast(parts + [name], text, '/');
  }

  lemma PrintNext(ps: seq<Protocol>, i: nat)
    requires i < |ps|
    ensures PrintedProtocols(ps[..i + 1])
      == PrintedProtocols(ps[..i]) + "/" + ps[i].Name() + "/" + Uuid.Dashed(ps[i].address)
  {
    var front, two := ps[..i], [ps[i].Name(), Uuid.Dashed(ps[i].address)];
    assert ps[..i + 1][..|ps[..i + 1]| - 1] == front;
    assert [""] + (ProtocolTokens(front) + two) == [""] + ProtocolTokens(front) + two;
    PrintTwo([""] + ProtocolTokens(front), two[0], two[1]);
  }

  lemma PrintVersion(m: Multiaddr)
    ensures Printed(m) == PrintedProtocols(m.protocols)
      + (if m.version.Some? then "/" + SemanticVersion.ToString(m.version.value) else "")
  {
    var parts := [""] + ProtocolTokens(m.protocols);
    if m.version.Some? {
      var text := SemanticVersion.ToString(m.version.value);
      JoinLast(parts, text, '/');
      assert [""] + PrintedTokens(m) == parts + [text];
      assert Join(parts, '/') + ("/" + text) == Join(parts, '/') + "/" + text;
    } else {
      assert [""] + PrintedTokens(m) == parts;
    }
  }

  /** The printed text, piece by piece: a slash and "btle" and a slash and the UUID
  for each protocol in order, a slash and the version if there is one, no more. */
  lemma PrintedText(ps: seq<Protocol>, p: Protocol, identifier: seq<u8>, v: SemanticVersion.SemanticVersion)
    ensures Printed(Multiaddr([], identifier, None)) == ""
    ensures Printed(Multiaddr(ps + [p], identifier, None))
      == Printed(Multiaddr(ps, identifier, None)) + "/btle/" + Uuid.Dashed(p.address)
    ensures Printed(Multiaddr(ps, identifier, Some(v)))
      == Printed(Multiaddr(ps, identifier, None)) + "/" + SemanticVersion.ToString(v)
  {
    PrintedNoVersion([], identifier);
    PrintedNoVersion(ps, identifier);
    PrintedNoVersion(ps + [p], identifier);
    PrintNext(ps + [p], |ps|);
    assert (ps + [p])[..|ps|] == ps && (ps + [p])[..|ps| + 1] == ps + [p];
    SlashedName(PrintedProtocols(ps), Uuid.Dashed(p.address));
    PrintVersion(Multiaddr(ps, identifier, Some(v)));
    AppendRegroup(PrintedProtocols(ps), "/", SemanticVersion.ToString(v));
  }

  lemma PrintedNoVersion(ps: seq<Protocol>, identifier: seq<u8>)
    ensures Printed(Multiaddr(ps, identifier, None)) == PrintedProtocols(ps)
  {
    PrintVersion(Multiaddr(ps, identifier, None));
    assert PrintedProtocols(ps) + "" == PrintedProtocols(ps);
  }

  lemma SlashedName(text: string, address: string)
    ensures text + "/" + "btle" + "/" + address == text + "/btle/" + address
  {
    assert "/btle/" == "/" + "btle" + "/";
  }

  method ToString(m: Multiaddr) returns (result: string)
    ensures result == Printed(m)
  {
    result := "";
    for i := 0 to |m.protocols|
      invariant result == PrintedProtocols(m.protocols[..i])
    {
      var protocol := m.protocols[i];
      var address := Uuid.ToString(protocol.address);
      PrintNext(m.protocols, i);
      result := result + "/" + protocol.Name() + "/" + address;
    }
    assert m.protocols[..|m.protocols|] == m.protocols;
    PrintVersion(m);
    if m.version.Some? {
      result := result + ("/" + SemanticVersion.ToString(m.version.value));
    }
  }
}
