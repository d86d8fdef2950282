/** The string functions that the parsers rest on: splitting at a separator,
decimal and hexadecimal digits, and the number parsing of absl::SimpleAtoi.
*/
module Text {
  import opened Uint

  datatype Option<+T> = None | Some(value: T)

  // ---- Splitting (absl::StrSplit with a one-character delimiter) ----

  function Split(s: string, d: char): (parts: seq<string>)
    ensures |parts| >= 1
  {
    if s == "" then [""]
    else
      var rest := Split(s[1..], d);
      if s[0] == d then [""] + rest
      else [[s[0]] + rest[0]] + rest[1..]
  }

  function Join(parts: seq<string>, d: char): string
    requires parts != []
  {
    if |parts| == 1 then parts[0] else parts[0] + [d] + Join(parts[1..], d)
  }

  ghost predicate Free(parts: seq<string>, d: char) {
    forall t | t in parts :: d !in t
  }

  lemma AppendRegroup<T>(a: seq<T>, b: seq<T>, c: seq<T>)
    ensures a + b + c == a + (b + c)
  {
  }

  /** A separator after a token splits the token off. */
  lemma {:induction false} SplitToken(a: string, rest: string, d: char)
    requires d !in a
    ensures Split(a + [d] + rest, d) == [a] + Split(rest, d)
    decreases |a|
  {
    var s := a + [d] + rest;
    if a == "" {
      assert s[1..] == rest;
    } else {
      assert s[1..] == a[1..] + [d] + rest;
      SplitToken(a[1..], rest, d);
      assert [a[0]] + a[1..] == a;
    }
  }

  lemma {:induction false} SplitLast(a: string, d: char)
    requires d !in a
    ensures Split(a, d) == [a]
  {
    if a != "" {
      SplitLast(a[1..], d);
      assert [a[0]] + a[1..] == a;
    }
  }

  /** Splitting undoes joining. */
  lemma {:induction false} SplitJoin(parts: seq<string>, d: char)
    requires parts != [] && Free(parts, d)
    ensures Split(Join(parts, d), d) == parts
  {
    if |parts| == 1 {
      SplitLast(parts[0], d);
    } else {
      SplitJoin(parts[1..], d);
      SplitToken(parts[0], Join(parts[1..], d), d);
    }
  }

  lemma JoinFirst(first: string, rest: seq<string>, d: char)
    requires rest != []
    ensures Join([first] + rest, d) == first + [d] + Join(rest, d)
  {
    assert ([first] + rest)[1..] == rest;
  }

  lemma JoinLonger(c: char, parts: seq<string>, d: char)
    requires parts != []
    ensures Join([[c] + parts[0]] + parts[1..], d) == [c] + Join(parts, d)
  {
    assert ([[c] + parts[0]] + parts[1..])[1..] == parts[1..];
  }

  /** Joining undoes splitting, whose parts hold no separator. */
  lemma {:induction false} JoinSplit(s: string, d: char)
    ensures Free(Split(s, d), d) && Join(Split(s, d), d) == s
  {
    if s != "" {
      var rest := Split(s[1..], d);
      JoinSplit(s[1..], d);
      assert s == [s[0]] + s[1..];
      if s[0] == d {
        JoinFirst("", rest, d);
      } else {
        JoinLonger(s[0], rest, d);
        assert rest[0] in rest && forall t | t in rest[1..] :: t in rest;
      }
    }
  }

  // ---- Decimal numbers ----

  predicate IsDigit(c: char) {
    '0' <= c <= '9'
  }

  predicate IsDigits(s: string) {
    s != "" && forall c | c in s :: IsDigit(c)
  }

  function DigitChar(n: nat): (c: char)
    requires n < 10
    ensures IsDigit(c)
  {
    '0' + n as char
  }

  function DigitValue(c: char): (n: nat)
    requires IsDigit(c)
    ensures n < 10
  {
    (c - '0') as nat
  }

  /** std::to_string of an unsigned number. */
  function Decimal(n: nat): (s: string)
    ensures IsDigits(s)
  {
    if n < 10 then [DigitChar(n)] else Decimal(n / 10) + [DigitChar(n % 10)]
  }

  function DecimalValue(s: string): nat
    requires forall c | c in s :: IsDigit(c)
  {
    if s == "" then 0
    else 10 * DecimalValue(s[..|s| - 1]) + DigitValue(s[|s| - 1])
  }

  lemma {:induction false} DecimalRoundTrip(n: nat)
    ensures DecimalValue(Decimal(n)) == n
  {
    var s := Decimal(n);
    if n < 10 {
      assert s[..0] == "";
    } else {
      DecimalRoundTrip(n / 10);
      assert s[..|s| - 1] == Decimal(n / 10);
    }
  }

  /** The digits are those of the decimal notation, in their order. */
  lemma DigitExact(c: char, n: nat)
    requires n < 10
    ensures IsDigit(c) && DigitValue(c) == n <==> c == "0123456789"[n]
    ensures DigitChar(n) == "0123456789"[n]
  {
  }

  function Pow10(k: nat): (p: nat)
    ensures p > 0
  {
    if k == 0 then 1 else 10 * Pow10(k - 1)
  }

  /** Digit by digit, from the right, the decimal notation of n. */
  lemma {:induction false} DecimalDigits(n: nat, i: nat)
    requires i < |Decimal(n)|
    ensures Decimal(n)[|Decimal(n)| - 1 - i] == "0123456789"[n / Pow10(i) % 10]
    decreases i
  {
    if i == 0 {
      DigitExact(Decimal(n)[|Decimal(n)| - 1], n % 10);
    } else {
      DecimalDigits(n / 10, i - 1);
      DivDiv(n, 10, Pow10(i - 1));
    }
  }

  /** It has at most k digits exactly when n is below 10^k. */
  lemma {:induction false} DecimalLength(n: nat, k: nat)
    requires k >= 1
    ensures |Decimal(n)| <= k <==> n < Pow10(k)
    decreases k
  {
    if k == 1 {
      assert Pow10(1) == 10 * Pow10(0);
    } else {
      assert Pow10(k) >= 10;
      DecimalLength(n / 10, k - 1);
    }
  }

  lemma {:induction false} DecimalBelow(s: string)
    requires forall c | c in s :: IsDigit(c)
    ensures DecimalValue(s) < Pow10(|s|)
    decreases |s|
  {
    if s != "" {
      DecimalBelow(s[..|s| - 1]);
    }
  }

  /** The printed number is the shortest numeral of its value. */
  lemma DecimalShortest(s: string)
    requires IsDigits(s)
    ensures |Decimal(DecimalValue(s))| <= |s|
  {
    DecimalBelow(s);
    DecimalLength(DecimalValue(s), |s|);
  }

  /** Only zero is printed with a leading zero. */
  lemma {:induction false} NoLeadingZero(n: nat)
    ensures Decimal(n)[0] == '0' <==> n == 0
  {
    if n >= 10 {
      NoLeadingZero(n / 10);
    }
  }

  /** ASCII white space. */
  predicate IsSpace(c: char) {
    c == ' ' || '\t' <= c <= '\r'
  }

  function TrimLeft(s: string): string {
    if s != "" && IsSpace(s[0]) then TrimLeft(s[1..]) else s
  }

  function TrimRight(s: string): string {
    if s != "" && IsSpace(s[|s| - 1]) then TrimRight(s[..|s| - 1]) else s
  }

  /** absl::SimpleAtoi into a 64-bit unsigned number: white space around it and a
  plus sign are let pass; anything else but digits, and overflow, is refused. */
  function SimpleAtoi(s: string): Option<u64> {
    var t := TrimRight(TrimLeft(s));
    var u := if t != "" && t[0] == '+' then t[1..] else t;
    if IsDigits(u) && DecimalValue(u) < TWO_TO_THE_64 then Some(DecimalValue(u)) else None
  }

  /** Leading zeros do not count. */
  lemma {:induction false} LeadingZero(s: string)
    requires forall c | c in s :: IsDigit(c)
    ensures DecimalValue("0" + s) == DecimalValue(s)
    decreases |s|
  {
    var t := "0" + s;
    if s == "" {
      assert t[..0] == "" && t[|t| - 1] == '0';
    } else {
      assert t[..|t| - 1] == "0" + s[..|s| - 1] && t[|t| - 1] == s[|s| - 1];
      LeadingZero(s[..|s| - 1]);
    }
  }

  lemma AtoiDecimal(n: u64)
    ensures SimpleAtoi(Decimal(n)) == Some(n)
  {
    var s := Decimal(n);
    assert IsDigit(s[0]) && IsDigit(s[|s| - 1]);
    DecimalRoundTrip(n);
  }

  ghost predicate AllSpace(s: string) {
    forall c | c in s :: IsSpace(c)
  }

  /** Blanks by their codes: tab, line feed, vertical tab, form feed, carriage
  return and space. */
  ghost predicate AllBlank(s: string) {
    forall c | c in s :: var n := c as int;
      n == 9 || n == 10 || n == 11 || n == 12 || n == 13 || n == 32
  }

  lemma BlankIsSpace(s: string)
    ensures AllBlank(s) <==> AllSpace(s)
  {
    forall c: char
      ensures IsSpace(c) <==> var n := c as int; n == 9 || n == 10 || n == 11 || n == 12 || n == 13 || n == 32
    {
    }
  }

  /** s is n in decimal, leading zeros allowed, after an optional plus sign and
  between optional blanks. */
  ghost predicate Numeral(s: string, n: nat) {
    exists before, sign, digits, after ::
      && s == before + (sign + digits) + after && AllBlank(before) && AllBlank(after)
      && (sign == "" || sign == "+") && IsDigits(digits) && DecimalValue(digits) == n
  }

  lemma {:induction false} TrimLeftOff(s: string)
    ensures |TrimLeft(s)| <= |s| && s == s[..|s| - |TrimLeft(s)|] + TrimLeft(s)
    ensures AllSpace(s[..|s| - |TrimLeft(s)|])
    decreases |s|
  {
    if s != "" && IsSpace(s[0]) {
      TrimLeftOff(s[1..]);
      var n := |s| - |TrimLeft(s)|;
      assert s == [s[0]] + s[1..] && s[..n] == [s[0]] + s[1..][..n - 1];
    } else {
      assert s[..0] == "";
    }
  }

  lemma {:induction false} TrimRightOff(s: string)
    ensures |TrimRight(s)| <= |s| && s == TrimRight(s) + s[|TrimRight(s)|..]
    ensures AllSpace(s[|TrimRight(s)|..])
    decreases |s|
  {
    if s != "" && IsSpace(s[|s| - 1]) {
      var front := s[..|s| - 1];
      TrimRightOff(front);
      var n := |TrimRight(s)|;
      assert s == front + [s[|s| - 1]] && s[n..] == front[n..] + [s[|s| - 1]];
    }
  }

  lemma {:induction false} TrimLeftSpace(space: string, t: string)
    requires AllSpace(space) && t != "" && !IsSpace(t[0])
    ensures TrimLeft(space + t) == t
    decreases |space|
  {
    if space == "" {
      assert space + t == t;
    } else {
      assert (space + t)[0] == space[0] && (space + t)[1..] == space[1..] + t;
      TrimLeftSpace(space[1..], t);
    }
  }

  lemma {:induction false} TrimRightSpace(t: string, space: string)
    requires AllSpace(space) && t != "" && !IsSpace(t[|t| - 1])
    ensures TrimRight(t + space) == t
    decreases |space|
  {
    if space == "" {
      assert t + space == t;
    } else {
      var n := |space| - 1;
      assert (t + space)[|t + space| - 1] == space[n] && (t + space)[..|t + space| - 1] == t + space[..n];
      TrimRightSpace(t, space[..n]);
    }
  }

  lemma AtoiTrimmed(before: string, core: string, after: string)
    requires AllSpace(before) && AllSpace(after) && core != "" && !IsSpace(core[0]) && !IsSpace(core[|core| - 1])
    ensures TrimRight(TrimLeft(before + core + after)) == core
  {
    assert before + core + after == before + (core + after);
    TrimLeftSpace(before, core + after);
    TrimRightSpace(core, after);
  }

  lemma AtoiOfNumeral(s: string, before: string, sign: string, digits: string, after: string)
    requires s == before + (sign + digits) + after && AllSpace(before) && AllSpace(after)
    requires (sign == "" || sign == "+") && IsDigits(digits) && DecimalValue(digits) < TWO_TO_THE_64
    ensures SimpleAtoi(s) == Some(DecimalValue(digits))
  {
    var core := sign + digits;
    assert IsDigit(digits[0]) && core[|core| - 1] == digits[|digits| - 1] && IsDigit(digits[|digits| - 1]);
    AtoiTrimmed(before, core, after);
    assert sign == "" ==> core == digits;
    assert sign == "+" ==> core[1..] == digits;
  }

  lemma TrimmedParts(s: string) returns (before: string, core: string, after: string)
    ensures s == before + core + after && core == TrimRight(TrimLeft(s))
    ensures AllSpace(before) && AllSpace(after)
  {
    var left := TrimLeft(s);
    core := TrimRight(left);
    TrimLeftOff(s);
    TrimRightOff(left);
    before, after := s[..|s| - |left|], left[|core|..];
    assert before + (core + after) == before + core + after;
  }

  lemma NumeralOfParts(s: string, before: string, sign: string, digits: string, after: string)
    requires s == before + (sign + digits) + after && AllSpace(before) && AllSpace(after)
    requires (sign == "" || sign == "+") && IsDigits(digits)
    ensures Numeral(s, DecimalValue(digits))
  {
    BlankIsSpace(before);
    BlankIsSpace(after);
  }

  lemma NumeralOfAtoi(s: string)
    requires SimpleAtoi(s).Some?
    ensures Numeral(s, SimpleAtoi(s).value)
  {
    var before, core, after := TrimmedParts(s);
    if core != "" && core[0] == '+' {
      assert core == "+" + core[1..];
      NumeralOfParts(s, before, "+", core[1..], after);
    } else {
      assert core == "" + core;
      NumeralOfParts(s, before, "", core, after);
    }
  }

  /** Exactly the numerals below 2^64 are read, as what they denote. */
  lemma AtoiExact(s: string, n: u64)
    ensures SimpleAtoi(s) == Some(n) <==> Numeral(s, n)
  {
    if SimpleAtoi(s) == Some(n) {
      NumeralOfAtoi(s);
    }
    if Numeral(s, n) {
      var before, sign, digits, after :|
        && s == before + (sign + digits) + after && AllBlank(before) && AllBlank(after)
        && (sign == "" || sign == "+") && IsDigits(digits) && DecimalValue(digits) == n;
      BlankIsSpace(before);
      BlankIsSpace(after);
      AtoiOfNumeral(s, before, sign, digits, after);
    }
  }

  // ---- Hexadecimal digits ----

  predicate IsHexDigit(c: char) {
    '0' <= c <= '9' || 'a' <= c <= 'f' || 'A' <= c <= 'F'
  }

  function HexValue(c: char): (n: nat)
    requires IsHexDigit(c)
    ensures n < 16
  {
    if '0' <= c <= '9' then (c - '0') as nat
    else if 'a' <= c <= 'f' then (c - 'a') as nat + 10
    else (c - 'A') as nat + 10
  }

  function HexChar(n: nat): (c: char)
    requires n < 16
    ensures IsHexDigit(c)
  {
    if n < 10 then '0' + n as char else 'a' + (n - 10) as char
  }

  function LowerChar(c: char): char {
    if 'A' <= c <= 'Z' then c - 'A' + 'a' else c
  }

  function Lower(s: string): (t: string)
    ensures |t| == |s|
    ensures forall i | 0 <= i < |s| :: t[i] == LowerChar(s[i])
  {
    seq(|s|, i requires 0 <= i < |s| => LowerChar(s[i]))
  }

  /** A hex digit is its value's, up to case. */
  lemma HexCharOfValue(c: char, n: nat)
    requires n < 16
    ensures IsHexDigit(c) && HexValue(c) == n <==> LowerChar(c) == HexChar(n)
  {
  }

  /** The hexadecimal digits, in either case, and those that are printed. */
  lemma HexDigitExact(c: char, n: nat)
    requires n < 16
    ensures IsHexDigit(c) && HexValue(c) == n <==> c == "0123456789abcdef"[n] || c == "0123456789ABCDEF"[n]
    ensures HexChar(n) == "0123456789abcdef"[n]
  {
  }
}
