/**
 JSON string literals exactly as json.dumps(ensure_ascii=True) writes them: a Python str is a
 sequence of code points, is split into UTF-16 code units, and every unit is written as one
 printable ASCII character or one escape.  Reading joins adjacent surrogate halves again.
 */
module JsonText {
  import opened Prelude

  type CodePoint = c: int | 0 <= c < 0x110000
  type CodeUnit = u: int | 0 <= u < 0x10000
  type Str = seq<CodePoint>

  // ----- UTF-16 code units

  predicate High(u: int) {
    0xD800 <= u < 0xDC00
  }

  predicate Low(u: int) {
    0xDC00 <= u < 0xE000
  }

  function Units(s: Str): seq<CodeUnit> {
    if s == [] then []
    else if s[0] < 0x10000 then [s[0]] + Units(s[1..])
    else [0xD800 + (s[0] - 0x10000) / 0x400, 0xDC00 + (s[0] - 0x10000) % 0x400] + Units(s[1..])
  }

  function Points(us: seq<CodeUnit>): Str {
    if us == [] then []
    else if |us| > 1 && High(us[0]) && Low(us[1]) then
      [0x10000 + (us[0] - 0xD800) * 0x400 + (us[1] - 0xDC00)] + Points(us[2..])
    else [us[0]] + Points(us[1..])
  }

  /** No high surrogate code point stands directly before a low one. */
  predicate NoSplitPair(s: Str) {
    forall i :: 0 <= i < |s| - 1 ==> !(High(s[i]) && Low(s[i + 1]))
  }

  lemma SurrogateArithmetic(c: CodePoint)
    requires c >= 0x10000
    ensures High(0xD800 + (c - 0x10000) / 0x400) && Low(0xDC00 + (c - 0x10000) % 0x400)
    ensures 0x10000 + ((c - 0x10000) / 0x400) * 0x400 + (c - 0x10000) % 0x400 == c
  {
  }

  lemma UnitsStart(s: Str)
    ensures s != [] ==> Units(s) != [] && (Low(Units(s)[0]) <==> Low(s[0]))
    ensures s == [] ==> Units(s) == []
  {
    if s != [] && s[0] >= 0x10000 {
      SurrogateArithmetic(s[0]);
    }
  }

  lemma PointsOfPair(c: CodePoint, us: seq<CodeUnit>)
    requires c >= 0x10000
    ensures Points([0xD800 + (c - 0x10000) / 0x400, 0xDC00 + (c - 0x10000) % 0x400] + us) == [c] + Points(us)
  {
    SurrogateArithmetic(c);
    var hi: CodeUnit, lo: CodeUnit := 0xD800 + (c - 0x10000) / 0x400, 0xDC00 + (c - 0x10000) % 0x400;
    var all := [hi, lo] + us;
    assert all[0] == hi && all[1] == lo && all[2..] == us;
  }

  lemma PointsOfSingle(c: CodeUnit, us: seq<CodeUnit>)
    requires High(c) && us != [] ==> !Low(us[0])
    ensures Points([c] + us) == [c] + Points(us)
  {
    assert ([c] + us)[1..] == us;
  }

  lemma SplitFreeTail(s: Str)
    requires s != [] && NoSplitPair(s)
    ensures NoSplitPair(s[1..])
    ensures |s| > 1 && High(s[0]) ==> !Low(s[1])
  {
    var t := s[1..];
    forall i | 0 <= i < |t| - 1
      ensures !(High(t[i]) && Low(t[i + 1]))
    {
      assert t[i] == s[i + 1] && t[i + 1] == s[i + 1 + 1];
    }
    assert |s| > 1 ==> !(High(s[0]) && Low(s[0 + 1]));
  }

  lemma {:induction false} PointsOfUnits(s: Str)
    ensures NoSplitPair(s) ==> Points(Units(s)) == s
  {
    if s != [] && NoSplitPair(s) {
      SplitFreeTail(s);
      PointsOfUnits(s[1..]);
      UnitsStart(s[1..]);
      assert s == [s[0]] + s[1..];
      if s[0] >= 0x10000 {
        PointsOfPair(s[0], Units(s[1..]));
      } else {
        PointsOfSingle(s[0], Units(s[1..]));
      }
    }
  }

  /** Joining surrogate halves never leaves a split pair behind. */
  lemma {:induction false} PointsNeverSplit(us: seq<CodeUnit>)
    ensures NoSplitPair(Points(us))
    ensures us != [] ==> Points(us) != [] && (Low(Points(us)[0]) ==> Low(us[0]))
  {
    if us == [] {
    } else if |us| > 1 && High(us[0]) && Low(us[1]) {
      PointsNeverSplit(us[2..]);
    } else {
      PointsNeverSplit(us[1..]);
      assert |us| > 1 ==> us[1] == us[1..][0];
    }
  }

  /** Splitting the joined code points gives the same units back. */
  lemma {:induction false} UnitsOfPoints(us: seq<CodeUnit>)
    ensures Units(Points(us)) == us
  {
    if us == [] {
    } else if |us| > 1 && High(us[0]) && Low(us[1]) {
      UnitsOfPoints(us[2..]);
      assert us == [us[0], us[1]] + us[2..];
      assert Points(us)[1..] == Points(us[2..]);
    } else {
      UnitsOfPoints(us[1..]);
      assert us == [us[0]] + us[1..];
      assert Points(us)[1..] == Points(us[1..]);
    }
  }

  // ----- escapes

  function HexDigit(d: int): char
    requires 0 <= d < 16
  {
    if d < 10 then '0' + d as char else 'a' + (d - 10) as char
  }

  function HexValue(c: char): Option<int> {
    if '0' <= c <= '9' then Some(c as int - '0' as int)
    else if 'a' <= c <= 'f' then Some(c as int - 'a' as int + 10)
    else None
  }

  function Hex4(u: CodeUnit): (r: string)
    ensures |r| == 4
  {
    [HexDigit(u / 4096), HexDigit(u / 256 % 16), HexDigit(u / 16 % 16), HexDigit(u % 16)]
  }

  function UnHex4(s: string): Option<CodeUnit>
    requires |s| >= 4
  {
    var a, b, c, d := HexValue(s[0]), HexValue(s[1]), HexValue(s[2]), HexValue(s[3]);
    if a.Some? && b.Some? && c.Some? && d.Some?
    then Some(a.value * 4096 + b.value * 256 + c.value * 16 + d.value)
    else None
  }

  lemma HexDigitRoundTrip(d: int)
    requires 0 <= d < 16
    ensures HexValue(HexDigit(d)) == Some(d)
  {
  }

  lemma HexPositions(u: CodeUnit)
    ensures u / 4096 * 4096 + u / 256 % 16 * 256 + u / 16 % 16 * 16 + u % 16 == u
  {
    assert u / 256 == u / 16 / 16 && u / 4096 == u / 256 / 16;
  }

  lemma Hex4RoundTrip(u: CodeUnit, rest: string)
    ensures UnHex4(Hex4(u) + rest) == Some(u)
  {
    HexDigitRoundTrip(u / 4096);
    HexDigitRoundTrip(u / 256 % 16);
    HexDigitRoundTrip(u / 16 % 16);
    HexDigitRoundTrip(u % 16);
    HexPositions(u);
    var s := Hex4(u) + rest;
    assert s[0] == HexDigit(u / 4096) && s[1] == HexDigit(u / 256 % 16);
    assert s[2] == HexDigit(u / 16 % 16) && s[3] == HexDigit(u % 16);
  }

  function EscapeUnit(u: CodeUnit): (r: string)
    ensures |r| > 0 && r[0] != '"'
  {
    if u == 34 then "\\\""
    else if u == 92 then "\\\\"
    else if u == 10 then "\\n"
    else if u == 13 then "\\r"
    else if u == 9 then "\\t"
    else if u == 12 then "\\f"
    else if u == 8 then "\\b"
    else if 32 <= u <= 126 then [u as char]
    else "\\u" + Hex4(u)
  }

  /** Reads one code unit from the front of a string literal's remainder. */
  function ReadUnit(s: string): (r: Option<(CodeUnit, string)>)
    requires s != ""
    ensures r.Some? ==> |r.value.1| < |s|
  {
    if s[0] == '\\' then
      if |s| < 2 then None
      else if s[1] == '"' then Some((34, s[2..]))
      else if s[1] == '\\' then Some((92, s[2..]))
      else if s[1] == 'n' then Some((10, s[2..]))
      else if s[1] == 'r' then Some((13, s[2..]))
      else if s[1] == 't' then Some((9, s[2..]))
      else if s[1] == 'f' then Some((12, s[2..]))
      else if s[1] == 'b' then Some((8, s[2..]))
      else if s[1] == 'u' && |s| >= 6 then
        var u := UnHex4(s[2..]);
        if u.None? then None else Some((u.value, s[6..]))
      else None
    else if ' ' <= s[0] <= '~' then Some((s[0] as int, s[1..]))
    else None
  }

  lemma ReadEscapedUnit(u: CodeUnit, rest: string)
    ensures ReadUnit(EscapeUnit(u) + rest) == Some((u, rest))
  {
    var e := EscapeUnit(u);
    var s := e + rest;
    assert s[|e|..] == rest;
    assert forall i :: 0 <= i < |e| ==> s[i] == e[i];
    if !(u in [34, 92, 10, 13, 9, 12, 8] || 32 <= u <= 126) {
      assert s[2..] == Hex4(u) + rest;
      Hex4RoundTrip(u, rest);
    }
  }

  function EscapeAll(us: seq<CodeUnit>): string {
    if us == [] then "" else EscapeUnit(us[0]) + EscapeAll(us[1..])
  }

  /** Reads the rest of a string literal after its opening quote. */
  function ReadUnits(s: string): (r: Option<(seq<CodeUnit>, string)>)
    ensures r.Some? ==> |r.value.1| < |s|
    decreases |s|
  {
    if s == "" then None
    else if s[0] == '"' then Some(([], s[1..]))
    else
      var head := ReadUnit(s);
      if head.None? then None
      else
        var tail := ReadUnits(head.value.1);
        if tail.None? then None else Some(([head.value.0] + tail.value.0, tail.value.1))
  }

  lemma {:induction false} ReadEscapedUnits(us: seq<CodeUnit>, rest: string)
    ensures ReadUnits(EscapeAll(us) + "\"" + rest) == Some((us, rest))
  {
    var s := EscapeAll(us) + "\"" + rest;
    if us == [] {
      assert s[1..] == rest;
    } else {
      var tail := EscapeAll(us[1..]) + "\"" + rest;
      assert s == EscapeUnit(us[0]) + tail;
      assert s[0] == EscapeUnit(us[0])[0];
      ReadEscapedUnit(us[0], tail);
      ReadEscapedUnits(us[1..], rest);
      assert us == [us[0]] + us[1..];
    }
  }

  function Quote(s: Str): string {
    "\"" + EscapeAll(Units(s)) + "\""
  }

  /** Reads one string literal, opening quote included. */
  function ReadString(s: string): (r: Option<(Str, string)>)
    ensures r.Some? ==> |r.value.1| < |s|
  {
    if s == "" || s[0] != '"' then None
    else
      var r := ReadUnits(s[1..]);
      if r.None? then None else Some((Points(r.value.0), r.value.1))
  }

  /** What a written literal reads back as, whatever follows it. */
  lemma ReadQuoted(s: Str, rest: string)
    ensures ReadString(Quote(s) + rest) == Some((Points(Units(s)), rest))
    ensures NoSplitPair(s) ==> ReadString(Quote(s) + rest) == Some((s, rest))
  {
    assert (Quote(s) + rest)[1..] == EscapeAll(Units(s)) + "\"" + rest;
    ReadEscapedUnits(Units(s), rest);
    PointsOfUnits(s);
  }

  /** A literal reads back as the string it was written from exactly when no pair is split. */
  lemma StringRoundTripExactly(s: Str, rest: string)
    ensures ReadString(Quote(s) + rest) == Some((s, rest)) <==> NoSplitPair(s)
  {
    ReadQuoted(s, rest);
    PointsNeverSplit(Units(s));
  }

  /** Every split string shares its literal with a different string: the literal is not injective there. */
  lemma SplitPairCollides(s: Str) returns (t: Str)
    requires !NoSplitPair(s)
    ensures t != s && NoSplitPair(t) && Quote(t) == Quote(s)
  {
    t := Points(Units(s));
    PointsNeverSplit(Units(s));
    UnitsOfPoints(Units(s));
  }

  /** A concrete split string: U+D83D, U+DE00 is written like U+1F600. */
  lemma SplitPairExample()
    ensures Quote([0xD83D, 0xDE00]) == Quote([0x1F600])
  {
    assert Units([0xD83D, 0xDE00]) == [0xD83D] + Units([0xDE00]) == [0xD83D, 0xDE00];
    assert Units([0x1F600]) == [0xD83D, 0xDE00];
  }
}
