/** utils/uuid.cpp: parsing and printing UUIDs. The textual form is that of
section 4 of RFC 9562; the parser reads any text whose alphanumerics spell one.
*/
module Uuid {
  import opened Uint
  import opened Text

  const SIZE: nat := 16

  type Uuid = u: seq<u8> | |u| == SIZE witness seq(SIZE, _ => 0)

  // ---- Meaning ----

  /** std::isalnum in the C locale. */
  predicate IsAlnum(c: char) {
    '0' <= c <= '9' || 'a' <= c <= 'z' || 'A' <= c <= 'Z'
  }

  function Clean(s: string): (t: string)
    ensures forall c | c in t :: IsAlnum(c)
  {
    if s == "" then ""
    else if IsAlnum(s[0]) then [s[0]] + Clean(s[1..])
    else Clean(s[1..])
  }

  /** Two lower-case hex digits, as "%02x" prints a byte. */
  function HexByte(b: u8): (s: string)
    ensures |s| == 2
  {
    [HexChar(b / 16), HexChar(b % 16)]
  }

  function Hex(bytes: seq<u8>): (s: string)
    ensures |s| == 2 * |bytes|
  {
    if bytes == [] then "" else HexByte(bytes[0]) + Hex(bytes[1..])
  }

  /** s spells u: its alphanumerics are the hex digits of u, up to case. */
  ghost predicate Spells(s: string, u: Uuid) {
    Lower(Clean(s)) == Hex(u)
  }

  /** The 8-4-4-4-12 form. */
  function Dashed(u: Uuid): string {
    Hex(u[..4]) + "-" + Hex(u[4..6]) + "-" + Hex(u[6..8]) + "-" + Hex(u[8..10]) + "-" + Hex(u[10..])
  }

  // ---- The parsing loops ----

  /** absl::HexStringToBytes on two characters. */
  function HexPair(s: string): Option<u8>
    requires |s| == 2
  {
    if IsHexDigit(s[0]) && IsHexDigit(s[1]) then Some(16 * HexValue(s[0]) + HexValue(s[1])) else None
  }

  function Unhex(s: string): Option<seq<u8>>
    requires |s| % 2 == 0
  {
    if s == "" then Some([])
    else match HexPair(s[..2])
      case None => None
      case Some(b) => match Unhex(s[2..])
        case None => None
        case Some(rest) => Some([b] + rest)
  }

  /** What Parse returns, as a function. */
  function Parsed(s: string): (r: Option<Uuid>) {
    var clean := Clean(s);
    if |clean| != 32 then None
    else
      UnhexLength(clean);
      Unhex(clean)
  }

  lemma {:induction false} UnhexLength(s: string)
    requires |s| % 2 == 0
    ensures Unhex(s).Some? ==> |Unhex(s).value| == |s| / 2
    decreases |s|
  {
    if s != "" {
      UnhexLength(s[2..]);
    }
  }

  lemma {:induction false} CleanAppend(a: string, b: string)
    ensures Clean(a + b) == Clean(a) + Clean(b)
  {
    if a == "" {
      assert a + b == b;
    } else {
      assert (a + b)[1..] == a[1..] + b;
      CleanAppend(a[1..], b);
    }
  }

  lemma {:induction false} UnhexAppend(a: string, pair: string)
    requires |a| % 2 == 0 && |pair| == 2
    ensures Unhex(a + pair) ==
      if Unhex(a).Some? && HexPair(pair).Some? then Some(Unhex(a).value + [HexPair(pair).value]) else None
    decreases |a|
  {
    if a == "" {
      assert a + pair == pair && pair[..2] == pair && pair[2..] == "";
      if HexPair(pair).Some? {
        var b := HexPair(pair).value;
        assert Unhex("") == Some([]) && [b] + [] == [] + [b];
      }
    } else {
      assert (a + pair)[..2] == a[..2] && (a + pair)[2..] == a[2..] + pair;
      UnhexAppend(a[2..], pair);
      if HexPair(a[..2]).Some? && Unhex(a[2..]).Some? && HexPair(pair).Some? {
        var b, rest, last := HexPair(a[..2]).value, Unhex(a[2..]).value, HexPair(pair).value;
        assert [b] + (rest + [last]) == [b] + rest + [last];
      }
    }
  }

  lemma {:induction false} UnhexPrefix(s: string, n: nat)
    requires |s| % 2 == 0 && n % 2 == 0 && n <= |s| && Unhex(s[..n]).None?
    ensures Unhex(s).None?
    decreases |s|
  {
    if n > 0 {
      assert s[..n][..2] == s[..2] && s[..n][2..] == s[2..][..n - 2];
      if HexPair(s[..2]).Some? {
        UnhexPrefix(s[2..], n - 2);
      }
    }
  }

  lemma CleanNext(str: string, k: nat)
    requires k < |str|
    ensures Clean(str[..k + 1]) == Clean(str[..k]) + (if IsAlnum(str[k]) then [str[k]] else "")
  {
    assert str[..k + 1] == str[..k] + [str[k]];
    CleanAppend(str[..k], [str[k]]);
    assert Clean([str[k]]) == if IsAlnum(str[k]) then [str[k]] else "";
  }

  lemma UnhexNext(clean: string, i: nat, bytes: seq<u8>)
    requires |clean| == 32 && i < 16 && Unhex(clean[..2 * i]) == Some(bytes)
    ensures var pair := HexPair(clean[i * 2..i * 2 + 2]);
      if pair.Some? then Unhex(clean[..2 * (i + 1)]) == Some(bytes + [pair.value]) else Unhex(clean).None?
  {
    var pair := clean[i * 2..i * 2 + 2];
    assert clean[..2 * (i + 1)] == clean[..2 * i] + pair;
    UnhexAppend(clean[..2 * i], pair);
    if HexPair(pair).None? {
      UnhexPrefix(clean, 2 * (i + 1));
    }
  }

  method Parse(str: string) returns (r: Option<Uuid>)
    ensures r == Parsed(str)
  {
    var clean := "";
    for k := 0 to |str|
      invariant clean == Clean(str[..k])
    {
      var c := str[k];
      CleanNext(str, k);
      if IsAlnum(c) {
        clean := clean + [c];
      }
    }
    assert str[..|str|] == str;
    if |clean| != 32 {
      return None;
    }

    var bytes := new u8[SIZE](_ => 0);
    for i := 0 to 16
      invariant Unhex(clean[..2 * i]) == Some(bytes[..i])
    {
      var byteStr := clean[i * 2..i * 2 + 2];
      var byteResult := HexPair(byteStr);
      UnhexNext(clean, i, bytes[..i]);
      if byteResult.None? {
        return None;
      }
      bytes[i] := byteResult.value;
      assert bytes[..i + 1] == bytes[..i] + [byteResult.value];
    }
    assert clean[..32] == clean && bytes[..16] == bytes[..];
    return Some(bytes[..]);
  }

  /** The raw form: sixteen bytes, taken as they are. */
  method ParseRaw(bytes: seq<u8>) returns (r: Option<Uuid>)
    ensures r.Some? <==> |bytes| == 16
    ensures r.Some? ==> r.value == bytes
  {
    if |bytes| != SIZE {
      return None;
    }
    return Some(bytes);
  }

  // ---- The printing loop ----

  /** What is printed in front of byte i. */
  function Dash(i: nat): string {
    if i == 4 || i == 6 || i == 8 || i == 10 then "-" else ""
  }

  /** The text when the first i bytes have been printed. */
  function DashedTo(u: Uuid, i: nat): string
    requires i <= SIZE
    decreases i, u
  {
    if i == 0 then "" else DashedTo(u, i - 1) + Dash(i - 1) + HexByte(u[i - 1])
  }

  lemma {:induction false} HexAppend(a: seq<u8>, b: seq<u8>)
    ensures Hex(a + b) == Hex(a) + Hex(b)
  {
    if a == [] {
      assert a + b == b;
    } else {
      assert (a + b)[1..] == a[1..] + b;
      HexAppend(a[1..], b);
    }
  }

  lemma HexExtend(u: Uuid, from: nat, i: nat)
    requires from <= i < SIZE
    ensures Hex(u[from..i + 1]) == Hex(u[from..i]) + HexByte(u[i])
  {
    assert u[from..i + 1] == u[from..i] + [u[i]];
    HexAppend(u[from..i], [u[i]]);
    assert Hex([u[i]]) == HexByte(u[i]);
  }

  lemma GroupStart(u: Uuid, start: nat)
    requires start < SIZE
    ensures DashedTo(u, start + 1) == DashedTo(u, start) + (Dash(start) + Hex(u[start..start + 1]))
  {
    assert u[start..start + 1] == [u[start]] && Hex([u[start]]) == HexByte(u[start]);
    AppendRegroup(DashedTo(u, start), Dash(start), HexByte(u[start]));
  }

  lemma GroupNext(u: Uuid, i: nat, text: string, group: string)
    requires i < SIZE && Dash(i) == "" && DashedTo(u, i) == text + group
    ensures DashedTo(u, i + 1) == text + (group + HexByte(u[i]))
  {
    assert DashedTo(u, i) + "" == text + group;
    AppendRegroup(text, group, HexByte(u[i]));
  }

  /** Bytes printed without a dash between them form a group. */
  lemma {:induction false} OneGroup(u: Uuid, start: nat, end: nat)
    requires start < end <= SIZE && forall k | start < k < end :: Dash(k) == ""
    ensures DashedTo(u, end) == DashedTo(u, start) + (Dash(start) + Hex(u[start..end]))
    decreases end
  {
    if start == end - 1 {
      GroupStart(u, start);
    } else {
      var i := end - 1;
      OneGroup(u, start, i);
      GroupNext(u, i, DashedTo(u, start), Dash(start) + Hex(u[start..i]));
      HexExtend(u, start, i);
      AppendRegroup(Dash(start), Hex(u[start..i]), HexByte(u[i]));
    }
  }

  lemma DashedGroup(u: Uuid, start: nat, end: nat, text: string)
    requires start < end <= SIZE && Dash(start) == "-" && forall k | start < k < end :: Dash(k) == ""
    requires text == DashedTo(u, start)
    ensures DashedTo(u, end) == text + "-" + Hex(u[start..end])
  {
    OneGroup(u, start, end);
    AppendRegroup(text, "-", Hex(u[start..end]));
  }

  lemma FirstGroup(u: Uuid, end: nat)
    requires end == 4
    ensures DashedTo(u, end) == Hex(u[..4])
  {
    OneGroup(u, 0, end);
    assert u[0..end] == u[..4];
  }

  lemma AllGroups(u: Uuid, text: string)
    requires text == DashedTo(u, SIZE)
    ensures text == Dashed(u)
  {
    var a, b, c, d := Hex(u[..4]), Hex(u[4..6]), Hex(u[6..8]), Hex(u[8..10]);
    FirstGroup(u, 4);
    DashedGroup(u, 4, 6, a);
    DashedGroup(u, 6, 8, a + "-" + b);
    DashedGroup(u, 8, 10, a + "-" + b + "-" + c);
    DashedGroup(u, 10, 16, a + "-" + b + "-" + c + "-" + d);
    assert u[10..16] == u[10..];
  }

  method ToString(u: Uuid) returns (out: string)
    ensures out == Dashed(u)
  {
    out := "";
    for i := 0 to |u|
      invariant out == DashedTo(u, i)
    {
      if i == 4 || i == 6 || i == 8 || i == 10 {
        out := out + "-";
      }
      out := out + HexByte(u[i]);
    }
    AllGroups(u, out);
  }

  // ---- What the parser accepts ----

  lemma {:induction false} UnhexExact(s: string, bytes: seq<u8>)
    requires |s| % 2 == 0
    ensures Unhex(s) == Some(bytes) <==> Lower(s) == Hex(bytes)
    decreases |s|
  {
    if s == "" {
    } else if bytes == [] {
      UnhexLength(s);
    } else {
      UnhexExact(s[2..], bytes[1..]);
      HexPairExact(s[0], s[1], bytes[0]);
      LowerPair(s);
      PairsAgree([LowerChar(s[0]), LowerChar(s[1])], Lower(s[2..]), HexByte(bytes[0]), Hex(bytes[1..]));
      UnhexFirst(s, bytes[0], bytes[1..]);
      assert bytes == [bytes[0]] + bytes[1..];
    }
  }

  lemma UnhexFirst(s: string, b: u8, rest: seq<u8>)
    requires |s| >= 2 && |s| % 2 == 0
    ensures Unhex(s) == Some([b] + rest) <==> HexPair([s[0], s[1]]) == Some(b) && Unhex(s[2..]) == Some(rest)
  {
    var head, tail := HexPair([s[0], s[1]]), Unhex(s[2..]);
    assert s[..2] == [s[0], s[1]];
    assert Unhex(s) == if head.Some? && tail.Some? then Some([head.value] + tail.value) else None;
    if head.Some? && tail.Some? {
      SameFirst(head.value, tail.value, b, rest);
    }
  }

  lemma SameFirst(b: u8, bs: seq<u8>, c: u8, cs: seq<u8>)
    ensures [b] + bs == [c] + cs <==> b == c && bs == cs
  {
    if [b] + bs == [c] + cs {
      assert ([b] + bs)[0] == ([c] + cs)[0];
      assert bs == ([b] + bs)[1..] == ([c] + cs)[1..] == cs;
    }
  }

  lemma PairsAgree(a: string, b: string, c: string, d: string)
    requires |a| == |c|
    ensures a + b == c + d <==> a == c && b == d
  {
    if a + b == c + d {
      assert (a + b)[..|a|] == a && (c + d)[..|a|] == c;
      assert (a + b)[|a|..] == b && (c + d)[|a|..] == d;
    }
  }

  lemma LowerPair(s: string)
    requires |s| >= 2
    ensures Lower(s) == [LowerChar(s[0]), LowerChar(s[1])] + Lower(s[2..])
  {
  }

  lemma HexPairExact(c: char, d: char, b: u8)
    ensures HexPair([c, d]) == Some(b) <==> [LowerChar(c), LowerChar(d)] == HexByte(b)
  {
    HexCharOfValue(c, b / 16);
    HexCharOfValue(d, b % 16);
  }

  /** Exactly the texts that spell a UUID parse, to that UUID. */
  lemma ParseExact(s: string, u: Uuid)
    ensures Parsed(s) == Some(u) <==> Spells(s, u)
  {
    var clean := Clean(s);
    if |clean| == 32 {
      UnhexExact(clean, u);
    }
  }

  /** It parses exactly when its alphanumerics are 32 hex digits. */
  lemma ParseSucceeds(s: string)
    ensures Parsed(s).Some? <==> |Clean(s)| == 32 && forall c | c in Clean(s) :: IsHexDigit(c)
  {
    if |Clean(s)| == 32 {
      UnhexSucceeds(Clean(s));
    }
  }

  lemma {:induction false} UnhexSucceeds(s: string)
    requires |s| % 2 == 0
    ensures Unhex(s).Some? <==> forall c | c in s :: IsHexDigit(c)
    decreases |s|
  {
    if s != "" {
      UnhexSucceeds(s[2..]);
      assert s == [s[0], s[1]] + s[2..];
    }
  }

  // ---- Round trip and normal form ----

  lemma {:induction false} CleanHex(bytes: seq<u8>)
    ensures Clean(Hex(bytes)) == Hex(bytes) && Lower(Hex(bytes)) == Hex(bytes)
  {
    if bytes != [] {
      CleanHex(bytes[1..]);
      CleanAppend(HexByte(bytes[0]), Hex(bytes[1..]));
      CleanPair(bytes[0]);
      LowerPair(Hex(bytes));
      assert Hex(bytes)[2..] == Hex(bytes[1..]);
    }
  }

  lemma CleanPair(b: u8)
    ensures Clean(HexByte(b)) == HexByte(b)
    ensures LowerChar(HexByte(b)[0]) == HexByte(b)[0] && LowerChar(HexByte(b)[1]) == HexByte(b)[1]
  {
    var s := HexByte(b);
    assert s == [s[0]] + [s[1]] && IsAlnum(s[0]) && IsAlnum(s[1]);
    CleanAppend([s[0]], [s[1]]);
    assert Clean([s[0]]) == [s[0]] && Clean([s[1]]) == [s[1]];
  }

  lemma CleanDash(a: string, b: string)
    ensures Clean(a + "-" + b) == Clean(a) + Clean(b)
  {
    CleanAppend(a + "-", b);
    CleanAppend(a, "-");
    assert Clean("-") == "";
  }

  lemma CleanGroups(a: string, b: string, c: string, d: string, e: string)
    ensures Clean(a + "-" + b + "-" + c + "-" + d + "-" + e) == Clean(a) + Clean(b) + Clean(c) + Clean(d) + Clean(e)
  {
    CleanDash(a, b);
    CleanDash(a + "-" + b, c);
    CleanDash(a + "-" + b + "-" + c, d);
    CleanDash(a + "-" + b + "-" + c + "-" + d, e);
  }

  lemma HexGroups(u: Uuid)
    ensures Hex(u) == Hex(u[..4]) + Hex(u[4..6]) + Hex(u[6..8]) + Hex(u[8..10]) + Hex(u[10..])
  {
    HexSlice(u, 4, 6);
    HexSlice(u, 6, 8);
    HexSlice(u, 8, 10);
    HexAppend(u[..10], u[10..]);
    assert u == u[..10] + u[10..];
  }

  lemma HexSlice(u: seq<u8>, i: nat, j: nat)
    requires i <= j <= |u|
    ensures Hex(u[..j]) == Hex(u[..i]) + Hex(u[i..j])
  {
    assert u[..j] == u[..i] + u[i..j];
    HexAppend(u[..i], u[i..j]);
  }

  lemma DashedSpells(u: Uuid)
    ensures Clean(Dashed(u)) == Hex(u) && Spells(Dashed(u), u)
  {
    CleanGroups(Hex(u[..4]), Hex(u[4..6]), Hex(u[6..8]), Hex(u[8..10]), Hex(u[10..]));
    CleanHex(u[..4]);
    CleanHex(u[4..6]);
    CleanHex(u[6..8]);
    CleanHex(u[8..10]);
    CleanHex(u[10..]);
    HexGroups(u);
    CleanHex(u);
  }

  /** Printing and parsing again gives the UUID back. */
  lemma ParseToString(u: Uuid)
    ensures Parsed(Dashed(u)) == Some(u)
  {
    DashedSpells(u);
    ParseExact(Dashed(u), u);
  }

  /** Texts with the same digits, up to case, denote the same UUID, and only they
  do; the dashed form is the normal form of them all. */
  lemma NormalForm(s: string, t: string)
    requires Parsed(s).Some?
    ensures Parsed(s) == Parsed(t) <==> Lower(Clean(s)) == Lower(Clean(t))
    ensures Lower(Clean(s)) == Clean(Dashed(Parsed(s).value))
  {
    var u := Parsed(s).value;
    ParseExact(s, u);
    ParseExact(t, u);
    DashedSpells(u);
  }

  // ---- The same, character by character ----

  /** Where the digits of byte i start in the printed form. */
  function Place(i: nat): nat {
    2 * i + (if i < 4 then 0 else if i < 6 then 1 else if i < 8 then 2 else if i < 10 then 3 else 4)
  }

  lemma {:induction false} PrintedLength(u: Uuid, n: nat)
    requires n <= SIZE
    ensures |DashedTo(u, n)| + |Dash(n)| == Place(n)
    decreases n
  {
    if n > 0 {
      PrintedLength(u, n - 1);
    }
  }

  /** Byte n is printed at its place, two digits after its dash. */
  lemma LastPrinted(u: Uuid, n: nat)
    requires n < SIZE
    ensures |DashedTo(u, n + 1)| == Place(n) + 2
    ensures DashedTo(u, n + 1)[Place(n)] == HexByte(u[n])[0] && DashedTo(u, n + 1)[Place(n) + 1] == HexByte(u[n])[1]
    ensures Dash(n) == "-" ==> DashedTo(u, n + 1)[Place(n) - 1] == '-'
  {
    PrintedLength(u, n);
    assert |DashedTo(u, n) + Dash(n)| == Place(n);
  }

  lemma {:induction false} PrintedStays(u: Uuid, n: nat, end: nat, k: nat)
    requires n <= end <= SIZE && k < |DashedTo(u, n)|
    ensures k < |DashedTo(u, end)| && DashedTo(u, end)[k] == DashedTo(u, n)[k]
    decreases end
  {
    if n < end {
      PrintedStays(u, n, end - 1, k);
    }
  }

  /** In the end byte i is where it was printed. */
  lemma PrintedAt(u: Uuid, i: nat, text: string)
    requires i < SIZE && text == DashedTo(u, SIZE)
    ensures Place(i) + 1 < |text| && text[Place(i)] == HexByte(u[i])[0] && text[Place(i) + 1] == HexByte(u[i])[1]
    ensures Dash(i) == "-" ==> text[Place(i) - 1] == '-'
  {
    LastPrinted(u, i);
    PrintedStays(u, i + 1, SIZE, Place(i));
    PrintedStays(u, i + 1, SIZE, Place(i) + 1);
    if Dash(i) == "-" {
      PrintedStays(u, i + 1, SIZE, Place(i) - 1);
    }
  }

  /** The printed form: 36 characters, two lower-case hex digits for each byte in
  order, the high one first, and dashes after bytes 3, 5, 7 and 9. */
  lemma DashedShape(u: Uuid, i: nat)
    requires i < SIZE
    ensures |Dashed(u)| == 36
    ensures Dashed(u)[8] == Dashed(u)[13] == Dashed(u)[18] == Dashed(u)[23] == '-'
    ensures Dashed(u)[Place(i)] == "0123456789abcdef"[u[i] / 16]
    ensures Dashed(u)[Place(i) + 1] == "0123456789abcdef"[u[i] % 16]
  {
    var text := DashedTo(u, SIZE);
    AllGroups(u, text);
    PrintedLength(u, SIZE);
    PrintedAt(u, 4, text);
    PrintedAt(u, 6, text);
    PrintedAt(u, 8, text);
    PrintedAt(u, 10, text);
    PrintedAt(u, i, text);
    HexDigitExact(HexByte(u[i])[0], u[i] / 16);
    HexDigitExact(HexByte(u[i])[1], u[i] % 16);
  }

  lemma {:induction false} CleanLower(s: string)
    ensures Clean(Lower(s)) == Lower(Clean(s))
  {
    if s != "" {
      CleanLower(s[1..]);
      assert Lower(s)[1..] == Lower(s[1..]);
      assert IsAlnum(LowerChar(s[0])) <==> IsAlnum(s[0]);
      assert Lower([s[0]] + Clean(s[1..])) == [LowerChar(s[0])] + Lower(Clean(s[1..]));
    }
  }

  /** The printed form is read in either case. */
  lemma ParseAnyCase(s: string, u: Uuid)
    requires |s| == |Dashed(u)|
    requires forall i | 0 <= i < |s| :: s[i] == Dashed(u)[i] || ('A' <= s[i] <= 'F' && s[i] - 'A' + 'a' == Dashed(u)[i])
    ensures Parsed(s) == Some(u)
  {
    DashedLower(u);
    assert Lower(s) == Lower(Dashed(u));
    CleanLower(s);
    DashedSpells(u);
    ParseExact(s, u);
  }

  lemma {:induction false} PrintedLower(u: Uuid, n: nat)
    requires n <= SIZE
    ensures forall k | 0 <= k < |DashedTo(u, n)| :: LowerChar(DashedTo(u, n)[k]) == DashedTo(u, n)[k]
    decreases n
  {
    if n > 0 {
      PrintedLower(u, n - 1);
      CleanPair(u[n - 1]);
    }
  }

  lemma DashedLower(u: Uuid)
    ensures Lower(Dashed(u)) == Dashed(u)
  {
    AllGroups(u, DashedTo(u, SIZE));
    PrintedLower(u, SIZE);
  }

  lemma CleanAround(a: string, c: char, b: string)
    ensures Clean(a + [c] + b) == Clean(a) + (if IsAlnum(c) then [c] else "") + Clean(b)
  {
    CleanAppend(a + [c], b);
    CleanAppend(a, [c]);
    assert Clean([c]) == if IsAlnum(c) then [c] else "";
  }

  /** Every character but digits and letters is ignored, wherever it stands. */
  lemma OthersIgnored(a: string, c: char, b: string)
    requires !('0' <= c <= '9') && !('a' <= c <= 'z') && !('A' <= c <= 'Z')
    ensures Parsed(a + [c] + b) == Parsed(a + b)
  {
    CleanAround(a, c, b);
    CleanAppend(a, b);
    assert Clean(a) + "" == Clean(a);
  }

  /** A letter that is no hex digit is not ignored: nothing parses with it. */
  lemma LetterRejected(a: string, c: char, b: string)
    requires 'g' <= c <= 'z' || 'G' <= c <= 'Z'
    ensures Parsed(a + [c] + b) == None
  {
    CleanAround(a, c, b);
    assert Clean(a + [c] + b)[|Clean(a)|] == c && !IsHexDigit(c);
    ParseSucceeds(a + [c] + b);
  }

  lemma {:induction false} CleanPlain(s: string)
    requires forall c | c in s :: '0' <= c <= '9' || 'a' <= c <= 'z' || 'A' <= c <= 'Z'
    ensures Clean(s) == s
  {
    if s != "" {
      assert s[0] in s && forall c | c in s[1..] :: c in s;
      CleanPlain(s[1..]);
      assert s == [s[0]] + s[1..];
    }
  }

  /** Of digits and letters alone, just 32 hex digits parse. */
  lemma ParsePlain(s: string)
    requires forall c | c in s :: '0' <= c <= '9' || 'a' <= c <= 'z' || 'A' <= c <= 'Z'
    ensures Parsed(s).Some? <==>
      |s| == 32 && forall c | c in s :: '0' <= c <= '9' || 'a' <= c <= 'f' || 'A' <= c <= 'F'
  {
    CleanPlain(s);
    ParseSucceeds(s);
  }
}
