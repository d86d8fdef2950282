/** utils/semantic_version.cpp: versions of three numbers. */
module SemanticVersion {
  import opened Uint
  import opened Text

  datatype SemanticVersion = SemanticVersion(major: u64, minor: u64, patch: u64)

  datatype ParseError = InvalidFormat | ConversionFailed

  datatype Result = Ok(version: SemanticVersion) | Error(error: ParseError)

  function ToString(v: SemanticVersion): string {
    Decimal(v.major) + "." + Decimal(v.minor) + "." + Decimal(v.patch)
  }

  /** s is three numerals between two dots. */
  ghost predicate Denotes(s: string, v: SemanticVersion) {
    exists a, b, c :: s == a + "." + b + "." + c && Spell(a, b, c, v)
  }

  /** The three dot-free texts are numerals of the three numbers. */
  ghost predicate Spell(a: string, b: string, c: string, v: SemanticVersion) {
    && '.' !in a && '.' !in b && '.' !in c
    && Numeral(a, v.major) && Numeral(b, v.minor) && Numeral(c, v.patch)
  }

  /** What Parse returns, as a function. */
  function Parsed(s: string): Option<SemanticVersion> {
    var parts := Split(s, '.');
    if |parts| == 3 && SimpleAtoi(parts[0]).Some? && SimpleAtoi(parts[1]).Some? && SimpleAtoi(parts[2]).Some? then
      Some(SemanticVersion(SimpleAtoi(parts[0]).value, SimpleAtoi(parts[1]).value, SimpleAtoi(parts[2]).value))
    else None
  }

  method Parse(str: string) returns (r: Result)
    ensures r == match Parsed(str) { case Some(v) => Ok(v) case None => Error(InvalidFormat) }
  {
    var parts := Split(str, '.');
    if |parts| != 3 {
      return Error(InvalidFormat);
    }
    var version := SemanticVersion(0, 0, 0);
    var major := SimpleAtoi(parts[0]);
    if major.None? {
      return Error(InvalidFormat);
    }
    version := version.(major := major.value);
    var minor := SimpleAtoi(parts[1]);
    if minor.None? {
      return Error(InvalidFormat);
    }
    version := version.(minor := minor.value);
    var patch := SimpleAtoi(parts[2]);
    if patch.None? {
      return Error(InvalidFormat);
    }
    version := version.(patch := patch.value);
    return Ok(version);
  }

  lemma ThreeParts(a: string, b: string, c: string)
    requires '.' !in a && '.' !in b && '.' !in c
    ensures Split(a + "." + b + "." + c, '.') == [a, b, c]
  {
    assert a + "." + b + "." + c == a + ['.'] + (b + ['.'] + c);
    SplitToken(a, b + ['.'] + c, '.');
    SplitToken(b, c, '.');
    SplitLast(c, '.');
  }

  lemma JoinThree(parts: seq<string>)
    requires |parts| == 3
    ensures Join(parts, '.') == parts[0] + "." + parts[1] + "." + parts[2]
  {
    assert Join(parts, '.') == parts[0] + "." + Join(parts[1..], '.');
    assert Join(parts[1..], '.') == parts[1] + "." + Join(parts[1..][1..], '.');
    assert parts[1..][1..] == [parts[2]];
    var a, b, c := parts[0], parts[1], parts[2];
    assert a + "." + (b + "." + c) == a + "." + b + "." + c;
  }

  lemma PartsSpell(a: string, b: string, c: string, v: SemanticVersion)
    requires '.' !in a && '.' !in b && '.' !in c
    ensures Spell(a, b, c, v) <==>
      SimpleAtoi(a) == Some(v.major) && SimpleAtoi(b) == Some(v.minor) && SimpleAtoi(c) == Some(v.patch)
  {
    AtoiExact(a, v.major);
    AtoiExact(b, v.minor);
    AtoiExact(c, v.patch);
  }

  lemma PartsParse(s: string, a: string, b: string, c: string, v: SemanticVersion)
    requires Split(s, '.') == [a, b, c]
    ensures Parsed(s) == Some(v) <==>
      SimpleAtoi(a) == Some(v.major) && SimpleAtoi(b) == Some(v.minor) && SimpleAtoi(c) == Some(v.patch)
  {
  }

  lemma ParsedDenotes(s: string, v: SemanticVersion)
    requires Parsed(s) == Some(v)
    ensures Denotes(s, v)
  {
    var parts := Split(s, '.');
    JoinSplit(s, '.');
    JoinThree(parts);
    assert parts[0] in parts && parts[1] in parts && parts[2] in parts;
    PartsParse(s, parts[0], parts[1], parts[2], v);
    PartsSpell(parts[0], parts[1], parts[2], v);
  }

  /** Exactly the texts that denote a version parse, to that version. */
  lemma ParseExact(s: string, v: SemanticVersion)
    ensures Parsed(s) == Some(v) <==> Denotes(s, v)
  {
    if Parsed(s) == Some(v) {
      ParsedDenotes(s, v);
    }
    if Denotes(s, v) {
      var a, b, c :| s == a + "." + b + "." + c && Spell(a, b, c, v);
      ThreeParts(a, b, c);
      PartsParse(s, a, b, c, v);
      PartsSpell(a, b, c, v);
    }
  }

  /** Printing and parsing again gives the version back. */
  lemma ParseToString(v: SemanticVersion)
    ensures Parsed(ToString(v)) == Some(v)
  {
    AtoiDecimal(v.major);
    AtoiDecimal(v.minor);
    AtoiDecimal(v.patch);
    ThreeParts(Decimal(v.major), Decimal(v.minor), Decimal(v.patch));
  }

  /** Printed versions differ when the versions do. */
  lemma ToStringInjective(v: SemanticVersion, w: SemanticVersion)
    requires ToString(v) == ToString(w)
    ensures v == w
  {
    ParseToString(v);
    ParseToString(w);
  }

  // ---- The texts of the unit test ----

  lemma Example()
    ensures ToString(SemanticVersion(1, 2, 3)) == "1.2.3" && Parsed("1.2.3") == Some(SemanticVersion(1, 2, 3))
  {
    assert Decimal(1) == "1" && Decimal(2) == "2" && Decimal(3) == "3";
    assert "1" + "." + "2" + "." + "3" == "1.2.3";
    ParseToString(SemanticVersion(1, 2, 3));
  }

  lemma LetterRefused()
    ensures SimpleAtoi("b") == None
  {
    assert TrimLeft("b") == "b" && TrimRight("b") == "b";
  }

  lemma Refused()
    ensures Parsed("") == None && Parsed("1.2.b") == None
  {
    SplitLast("", '.');
    ThreeParts("1", "2", "b");
    assert "1" + "." + "2" + "." + "b" == "1.2.b";
    LetterRefused();
  }
}
