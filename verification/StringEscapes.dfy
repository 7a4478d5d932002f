/** JSON string escapes: of JSON.stringify, and of json.dumps restricted to ASCII. */
module StringEscapes {
  import opened Wrappers
  import opened Sorting
  import opened CanonicalJson

  function HexDigit(d: int): (c: char)
    requires 0 <= d < 16
    ensures d == if c <= '9' then c as int - 48 else c as int - 87
  {
    if d < 10 then (48 + d) as char else (87 + d) as char
  }

  /** Four lower-case hexadecimal digits. */
  function Hex4(u: int): (r: string)
    requires 0 <= u < 0x10000
    ensures |r| == 4
  {
    [HexDigit(u / 16 / 16 / 16), HexDigit(u / 16 / 16 % 16), HexDigit(u / 16 % 16), HexDigit(u % 16)]
  }

  lemma Hex4Injective(u: int, v: int)
    requires 0 <= u < 0x10000 && 0 <= v < 0x10000 && Hex4(u) == Hex4(v)
    ensures u == v
  {
    var s, t := Hex4(u), Hex4(v);
    assert s[0] == t[0] && s[1] == t[1] && s[2] == t[2] && s[3] == t[3];
    var p, q := u / 16 / 16, v / 16 / 16;
    assert p == p / 16 * 16 + p % 16 && q == q / 16 * 16 + q % 16;
    assert u / 16 == p * 16 + u / 16 % 16 && v / 16 == q * 16 + v / 16 % 16;
  }

  /** The letter of a two-character escape, or a space when the character has none. */
  function ShortEscape(c: char): (l: char)
    ensures l != 'u'
  {
    if c == '"' then '"'
    else if c == '\\' then '\\'
    else if c as int == 8 then 'b'
    else if c as int == 9 then 't'
    else if c as int == 10 then 'n'
    else if c as int == 12 then 'f'
    else if c as int == 13 then 'r'
    else ' '
  }

  function EscapeControls(c: char): (r: string) {
    if ShortEscape(c) != ' ' then ['\\', ShortEscape(c)]
    else if (c as int) < 32 then ['\\', 'u'] + Hex4(c as int)
    else [c]
  }

  /** A character above U+FFFF becomes two escapes, one for each half of its surrogate pair. */
  function EscapeNonAscii(c: char): (r: string) {
    if ShortEscape(c) != ' ' then ['\\', ShortEscape(c)]
    else if 32 <= c as int < 127 then [c]
    else
      var u := Utf16Units(c);
      ['\\', 'u'] + Hex4(u[0]) + (if |u| == 1 then [] else ['\\', 'u'] + Hex4(u[1]))
  }

  lemma EscapeControlsIsPrefixCode()
    ensures PrefixCode(EscapeControls)
  {
    forall c, d, x: string, y: string | EscapeControls(c) + x == EscapeControls(d) + y
      ensures c == d && x == y
    {
      var a, b := EscapeControls(c) + x, EscapeControls(d) + y;
      assert a[0] == b[0];
      if a[0] == '\\' {
        assert a[1] == b[1];
        if a[1] == 'u' {
          assert a[2..6] == Hex4(c as int) && b[2..6] == Hex4(d as int);
          Hex4Injective(c as int, d as int);
        }
      }
      assert c == d;
      assert x == a[|EscapeControls(c)|..] && y == b[|EscapeControls(d)|..];
    }
  }

  lemma EscapeNonAsciiIsPrefixCode()
    ensures PrefixCode(EscapeNonAscii)
  {
    forall c, d, x: string, y: string | EscapeNonAscii(c) + x == EscapeNonAscii(d) + y
      ensures c == d && x == y
    {
      EscapeNonAsciiPrefixFree(c, d, x, y);
    }
  }

  lemma EscapeNonAsciiPrefixFree(c: char, d: char, x: string, y: string)
    requires EscapeNonAscii(c) + x == EscapeNonAscii(d) + y
    ensures c == d && x == y
  {
    var a, b := EscapeNonAscii(c) + x, EscapeNonAscii(d) + y;
    assert a[0] == b[0];
    if a[0] == '\\' {
      assert a[1] == b[1];
      if a[1] == 'u' { SameUnits(c, d, x, y); }
    }
    assert x == a[|EscapeNonAscii(c)|..] && y == b[|EscapeNonAscii(d)|..];
  }

  function UnitEscapes(u: seq<int>): (r: string)
    requires 1 <= |u| <= 2 && forall i :: 0 <= i < |u| ==> 0 <= u[i] < 0x10000
  {
    ['\\', 'u'] + Hex4(u[0]) + (if |u| == 1 then [] else ['\\', 'u'] + Hex4(u[1]))
  }

  lemma DigitsAt(u: seq<int>, x: string)
    requires 1 <= |u| <= 2 && forall i :: 0 <= i < |u| ==> 0 <= u[i] < 0x10000
    ensures var t := UnitEscapes(u) + x;
      |t| >= 6 && t[2..6] == Hex4(u[0]) && (|u| == 2 ==> |t| >= 12 && t[8..12] == Hex4(u[1]))
  {
    hide Hex4;
  }

  /** Characters written as units: the first unit says whether there is a second. */
  lemma SameUnits(c: char, d: char, x: string, y: string)
    requires EscapeNonAscii(c) + x == EscapeNonAscii(d) + y
    requires EscapeNonAscii(c) == UnitEscapes(Utf16Units(c)) && EscapeNonAscii(d) == UnitEscapes(Utf16Units(d))
    ensures c == d
  {
    hide Hex4, EscapeNonAscii;
    var u, v := Utf16Units(c), Utf16Units(d);
    var a, b := UnitEscapes(u) + x, UnitEscapes(v) + y;
    DigitsAt(u, x);
    DigitsAt(v, y);
    assert a[2..6] == Hex4(u[0]) && b[2..6] == Hex4(v[0]);
    Hex4Injective(u[0], v[0]);
    if |u| == 2 { Hex4Injective(u[1], v[1]); }
    Utf16UnitsPrefixFree(c, d, [], []);
  }

  // ---- Reading escapes back ----

  /** The character of a two-character escape. */
  function LongForm(l: char): (c: Option<char>) {
    if l == '"' then Some('"')
    else if l == '\\' then Some('\\')
    else if l == 'b' then Some(8 as char)
    else if l == 't' then Some(9 as char)
    else if l == 'n' then Some(10 as char)
    else if l == 'f' then Some(12 as char)
    else if l == 'r' then Some(13 as char)
    else None
  }

  function HexValue(c: char): (d: Option<int>)
    ensures d.Some? ==> 0 <= d.value < 16
  {
    if '0' <= c <= '9' then Some(c as int - 48)
    else if 'a' <= c <= 'f' then Some(c as int - 87)
    else None
  }

  lemma HexDigitReads(d: int)
    requires 0 <= d < 16
    ensures HexValue(HexDigit(d)) == Some(d)
  {
  }

  /** The number that four hexadecimal digits write. */
  function HexNumber(h: string): (n: Option<int>)
    requires |h| == 4
  {
    match (HexValue(h[0]), HexValue(h[1]), HexValue(h[2]), HexValue(h[3]))
    case (Some(a), Some(b), Some(c), Some(d)) => Some(((a * 16 + b) * 16 + c) * 16 + d)
    case _ => None
  }

  lemma Hex4Reads(u: int)
    requires 0 <= u < 0x10000
    ensures HexNumber(Hex4(u)) == Some(u)
  {
    hide HexDigit, HexValue;
    var q := u / 16 / 16;
    HexDigitReads(q / 16);
    HexDigitReads(q % 16);
    HexDigitReads(u / 16 % 16);
    HexDigitReads(u % 16);
    assert q == q / 16 * 16 + q % 16 && u / 16 == q * 16 + u / 16 % 16 && u == u / 16 * 16 + u % 16;
  }

  /** A JSON string's text as the UTF-16 code units it stands for; None where an escape is none. */
  function Unescape(t: string): (u: Option<seq<int>>) {
    if t == "" then Some([])
    else if t[0] != '\\' then Before(Utf16Units(t[0]), Unescape(t[1..]))
    else if |t| >= 2 && LongForm(t[1]).Some? then Before([LongForm(t[1]).value as int], Unescape(t[2..]))
    else if |t| >= 6 && t[1] == 'u' && HexNumber(t[2..6]).Some? then
      Before([HexNumber(t[2..6]).value], Unescape(t[6..]))
    else None
  }

  function Before(u: seq<int>, v: Option<seq<int>>): (w: Option<seq<int>>) {
    if v == None then None else Some(u + v.value)
  }

  lemma EscapedUnit(u: int, x: string)
    requires 0 <= u < 0x10000
    ensures Unescape(['\\', 'u'] + Hex4(u) + x) == Before([u], Unescape(x))
  {
    hide Hex4;
    var t := ['\\', 'u'] + Hex4(u) + x;
    Hex4Reads(u);
    assert t[2..6] == Hex4(u) && t[6..] == x;
  }

  lemma ShortEscapeReads(c: char)
    ensures ShortEscape(c) != ' ' ==> LongForm(ShortEscape(c)) == Some(c)
  {
  }

  /** Whichever of the two escapings wrote it, a character is read back as its code units. */
  lemma EscapesMean(c: char, x: string)
    ensures Unescape(EscapeControls(c) + x) == Before(Utf16Units(c), Unescape(x))
    ensures Unescape(EscapeNonAscii(c) + x) == Before(Utf16Units(c), Unescape(x))
  {
    hide Unescape, Before, Utf16Units;
    if ShortEscape(c) != ' ' {
      ShortMeans(c, x);
    } else {
      if (c as int) < 0x10000 { OneUnitMeans(c, x); } else { TwoUnitsMean(c, x); }
      if c as int >= 32 { ItselfMeans(c, x); }
    }
  }

  lemma ShortMeans(c: char, x: string)
    requires ShortEscape(c) != ' '
    ensures Unescape(['\\', ShortEscape(c)] + x) == Before(Utf16Units(c), Unescape(x))
  {
    hide HexNumber, LongForm, ShortEscape;
    ShortEscapeReads(c);
    ShortIsAscii(c);
    assert (['\\', ShortEscape(c)] + x)[2..] == x;
  }

  lemma ItselfMeans(c: char, x: string)
    requires ShortEscape(c) == ' '
    ensures Unescape([c] + x) == Before(Utf16Units(c), Unescape(x))
  {
    hide HexNumber, LongForm;
    NoShortForm(c);
    assert ([c] + x)[1..] == x;
  }

  lemma OneUnitMeans(c: char, x: string)
    requires (c as int) < 0x10000
    ensures Utf16Units(c) == [c as int]
    ensures Unescape(['\\', 'u'] + Hex4(c as int) + x) == Before(Utf16Units(c), Unescape(x))
    ensures ['\\', 'u'] + Hex4(c as int) + [] == ['\\', 'u'] + Hex4(c as int)
  {
    hide Hex4, Unescape;
    EscapedUnit(c as int, x);
  }

  lemma TwoUnitsMean(c: char, x: string)
    requires c as int >= 0x10000
    ensures |Utf16Units(c)| == 2 && Unescape(UnitEscapes(Utf16Units(c)) + x) == Before(Utf16Units(c), Unescape(x))
  {
    hide Hex4, Unescape, Before;
    var u := Utf16Units(c);
    EscapedUnit(u[1], x);
    EscapedUnit(u[0], ['\\', 'u'] + Hex4(u[1]) + x);
    assert UnitEscapes(u) + x == ['\\', 'u'] + Hex4(u[0]) + (['\\', 'u'] + Hex4(u[1]) + x);
    assert u == [u[0], u[1]];
    BeforeTwice(u[0], u[1], Unescape(x));
  }

  /** So a whole string is read back as its code units. */
  lemma {:induction false} StringsMean(s: string)
    ensures Unescape(EscapeAll(EscapeControls, s)) == Some(Utf16(s))
    ensures Unescape(EscapeAll(EscapeNonAscii, s)) == Some(Utf16(s))
  {
    hide EscapeControls, EscapeNonAscii, Utf16Units;
    if s != "" {
      StringsMean(s[1..]);
      EscapesMean(s[0], EscapeAll(EscapeControls, s[1..]));
      EscapesMean(s[0], EscapeAll(EscapeNonAscii, s[1..]));
    }
  }

  lemma BeforeTwice(a: int, b: int, v: Option<seq<int>>)
    ensures Before([a], Before([b], v)) == Before([a, b], v)
  {
    if v.Some? { assert [a] + ([b] + v.value) == [a, b] + v.value; }
  }

  lemma ShortIsAscii(c: char)
    requires ShortEscape(c) != ' '
    ensures (c as int) < 128
  {
  }

  lemma NoShortForm(c: char)
    requires ShortEscape(c) == ' '
    ensures c != '\\' && c != '"'
  {
  }

  /** The forms that JSON prescribes or ECMAScript and Python prefer, one by one. */
  lemma ShortForms(c: char)
    ensures EscapeControls('"') == EscapeNonAscii('"') == "\\\""
    ensures EscapeControls('\\') == EscapeNonAscii('\\') == "\\\\"
    ensures EscapeControls(8 as char) == EscapeNonAscii(8 as char) == "\\b"
    ensures EscapeControls(9 as char) == EscapeNonAscii(9 as char) == "\\t"
    ensures EscapeControls(10 as char) == EscapeNonAscii(10 as char) == "\\n"
    ensures EscapeControls(12 as char) == EscapeNonAscii(12 as char) == "\\f"
    ensures EscapeControls(13 as char) == EscapeNonAscii(13 as char) == "\\r"
    ensures 32 <= c as int && c != '"' && c != '\\' ==> EscapeControls(c) == [c]
    ensures 32 <= c as int < 127 && c != '"' && c != '\\' ==> EscapeNonAscii(c) == [c]
    ensures forall i :: 0 <= i < |EscapeNonAscii(c)| ==> 32 <= EscapeNonAscii(c)[i] as int < 127
  {
    hide Hex4;
    var u := Utf16Units(c);
    Hex4IsAscii(u[0]);
    if |u| == 2 { Hex4IsAscii(u[1]); }
  }

  /** Hexadecimal digits are written in lower case. */
  lemma LongForms()
    ensures EscapeControls(0x1f as char) == EscapeNonAscii(0x1f as char) == "\\u001f"
    ensures EscapeNonAscii(0xe9 as char) == "\\u00e9"
  {
    hide Hex4;
    HexExamples();
  }

  lemma HexExamples()
    ensures Hex4(0x1f) == "001f" && Hex4(0xe9) == "00e9"
  {
  }

  /** Printable ASCII without quotes and backslashes stands as it is. */
  lemma {:induction false} PlainText(s: string)
    requires forall i :: 0 <= i < |s| ==> 32 <= s[i] as int < 127 && s[i] != '"' && s[i] != '\\'
    ensures EscapeAll(EscapeNonAscii, s) == s
  {
    hide EscapeNonAscii;
    if s != "" {
      ShortForms(s[0]);
      PlainText(s[1..]);
      assert s == [s[0]] + s[1..];
    }
  }

  lemma Hex4IsAscii(u: int)
    requires 0 <= u < 0x10000
    ensures forall i :: 0 <= i < 4 ==> 32 <= Hex4(u)[i] as int < 127
  {
  }
}
