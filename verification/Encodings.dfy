/** Decimal numerals, big-endian integers, UTF-8 and base64url. */
module Encodings {
  import opened Wrappers

  type Byte = x: int | 0 <= x < 256
  type Bytes = seq<Byte>

  // ---- Splitting ----

  /** The part before the first separator is determined by the text. */
  lemma SplitAtSeparator<T>(c: T, s: seq<T>, t: seq<T>, x: seq<T>, y: seq<T>)
    requires c !in s && c !in t
    requires s + [c] + x == t + [c] + y
    ensures s == t && x == y
  {
    var a, b := s + [c] + x, t + [c] + y;
    assert forall i :: 0 <= i < |s| ==> a[i] == s[i];
    assert forall i :: 0 <= i < |t| ==> b[i] == t[i];
    assert a[|s|] == c && b[|t|] == c;
    assert |s| == |t|;
    assert s == a[..|s|] && t == b[..|t|];
    assert x == a[|s| + 1..] && y == b[|t| + 1..];
  }

  lemma SplitAtLength<T>(s: seq<T>, t: seq<T>, x: seq<T>, y: seq<T>)
    requires |s| == |t| && s + x == t + y
    ensures s == t && x == y
  {
    assert s == (s + x)[..|s|] && t == (t + y)[..|t|];
    assert x == (s + x)[|s|..] && y == (t + y)[|t|..];
  }

  // ---- Decimal numerals ----

  predicate IsDigit(c: char) { '0' <= c <= '9' }

  predicate AllDigits(s: string) { forall i :: 0 <= i < |s| ==> IsDigit(s[i]) }

  function DigitChar(d: int): (c: char)
    requires 0 <= d < 10
    ensures IsDigit(c) && DigitValue(c) == d
  {
    (48 + d) as char
  }

  function DigitValue(c: char): (d: int)
    requires IsDigit(c)
    ensures 0 <= d < 10
  {
    c as int - 48
  }

  /** str(n) */
  function Decimal(n: nat): (s: string)
    ensures s != "" && AllDigits(s)
  {
    if n < 10 then [DigitChar(n)] else Decimal(n / 10) + [DigitChar(n % 10)]
  }

  function Numeral(s: string): (n: nat)
    requires AllDigits(s)
  {
    if s == "" then 0 else 10 * Numeral(s[..|s| - 1]) + DigitValue(s[|s| - 1])
  }

  lemma {:induction false} DecimalRoundTrip(n: nat)
    ensures Numeral(Decimal(n)) == n
    ensures Decimal(n)[0] == '0' ==> n == 0
  {
    if n < 10 {
      assert Decimal(n)[..0] == "";
    } else {
      DecimalRoundTrip(n / 10);
      assert Decimal(n)[..|Decimal(n)| - 1] == Decimal(n / 10);
    }
  }

  /** A numeral without superfluous zeros is the one str() writes. */
  lemma {:induction false} NumeralRoundTrip(s: string)
    requires s != "" && AllDigits(s) && (s[0] == '0' ==> |s| == 1)
    ensures Decimal(Numeral(s)) == s
  {
    var n := Numeral(s);
    if |s| > 1 {
      var front := s[..|s| - 1];
      assert s == front + [s[|s| - 1]];
      NumeralRoundTrip(front);
      NumeralPositive(front);
      assert n / 10 == Numeral(front) && n % 10 == DigitValue(s[|s| - 1]);
    } else {
      assert s[..0] == "";
    }
  }

  lemma {:induction false} NumeralPositive(s: string)
    requires s != "" && AllDigits(s) && s[0] != '0'
    ensures Numeral(s) > 0
  {
    if |s| > 1 { NumeralPositive(s[..|s| - 1]); }
  }

  lemma DecimalInjective(m: nat, n: nat)
    requires Decimal(m) == Decimal(n)
    ensures m == n
  {
    DecimalRoundTrip(m);
    DecimalRoundTrip(n);
  }

  // ---- Big-endian integers ----

  function Pow256(k: nat): (p: nat)
    ensures p > 0
  {
    if k == 0 then 1 else 256 * Pow256(k - 1)
  }

  /** n.to_bytes(width, "big"), which raises unless n fits. */
  function BigEndian(n: nat, width: nat): (b: Bytes)
    requires n < Pow256(width)
    ensures |b| == width
  {
    if width == 0 then [] else BigEndian(n / 256, width - 1) + [n % 256]
  }

  function FromBigEndian(b: Bytes): (n: nat) {
    if b == [] then 0 else 256 * FromBigEndian(b[..|b| - 1]) + b[|b| - 1]
  }

  lemma {:induction false} BigEndianRoundTrip(n: nat, width: nat)
    requires n < Pow256(width)
    ensures FromBigEndian(BigEndian(n, width)) == n
  {
    if width > 0 {
      BigEndianRoundTrip(n / 256, width - 1);
      assert BigEndian(n, width)[..width - 1] == BigEndian(n / 256, width - 1);
    }
  }

  lemma {:induction false} FromBigEndianRoundTrip(b: Bytes)
    ensures FromBigEndian(b) < Pow256(|b|)
    ensures BigEndian(FromBigEndian(b), |b|) == b
  {
    if b != [] {
      FromBigEndianRoundTrip(b[..|b| - 1]);
      assert b == b[..|b| - 1] + [b[|b| - 1]];
      assert FromBigEndian(b) / 256 == FromBigEndian(b[..|b| - 1]);
    }
  }

  lemma Pow256Of4()
    ensures Pow256(4) == 0x1_0000_0000
  {
    assert Pow256(1) == 256 && Pow256(2) == 65536 && Pow256(3) == 16777216;
  }

  // ---- UTF-8 ----

  function Utf8Char(c: char): (b: Bytes)
    ensures 1 <= |b| <= 4
  {
    var cp := c as int;
    if cp < 0x80 then [cp]
    else if cp < 0x800 then [0xC0 + cp / 0x40, 0x80 + cp % 0x40]
    else if cp < 0x10000 then [0xE0 + cp / 0x1000, 0x80 + cp / 0x40 % 0x40, 0x80 + cp % 0x40]
    else [0xF0 + cp / 0x40000, 0x80 + cp / 0x1000 % 0x40, 0x80 + cp / 0x40 % 0x40, 0x80 + cp % 0x40]
  }

  function Utf8(s: string): (b: Bytes) {
    if s == "" then [] else Utf8Char(s[0]) + Utf8(s[1..])
  }

  lemma Utf8CharPrefixFree(c: char, d: char, x: Bytes, y: Bytes)
    requires Utf8Char(c) + x == Utf8Char(d) + y
    ensures c == d && x == y
  {
    var a, b := Utf8Char(c) + x, Utf8Char(d) + y;
    assert a[0] == Utf8Char(c)[0] && b[0] == Utf8Char(d)[0];
    assert |Utf8Char(c)| == |Utf8Char(d)|;
    SplitAtLength(Utf8Char(c), Utf8Char(d), x, y);
    Utf8CharInjective(c, d);
  }

  lemma Utf8CharInjective(c: char, d: char)
    requires Utf8Char(c) == Utf8Char(d)
    ensures c == d
  {
    var p, q, u, v := c as int, d as int, Utf8Char(c), Utf8Char(d);
    assert u[0] == v[0];
    if |u| == 2 {
      assert u[1] == v[1];
    } else if |u| == 3 {
      assert u[1] == v[1] && u[2] == v[2];
      assert p / 0x1000 == (p / 0x40) / 0x40 && q / 0x1000 == (q / 0x40) / 0x40;
    } else if |u| == 4 {
      assert u[1] == v[1] && u[2] == v[2] && u[3] == v[3];
      assert p / 0x1000 == (p / 0x40) / 0x40 && q / 0x1000 == (q / 0x40) / 0x40;
      assert p / 0x40000 == (p / 0x1000) / 0x40 && q / 0x40000 == (q / 0x1000) / 0x40;
    }
    assert p == q;
  }

  lemma {:induction false} Utf8Injective(s: string, t: string)
    requires Utf8(s) == Utf8(t)
    ensures s == t
  {
    if s != "" && t != "" {
      Utf8CharPrefixFree(s[0], t[0], Utf8(s[1..]), Utf8(t[1..]));
      Utf8Injective(s[1..], t[1..]);
      assert s == [s[0]] + s[1..] && t == [t[0]] + t[1..];
    }
  }

  /** Text of ASCII characters encodes one byte per character. */
  lemma {:induction false} Utf8Ascii(s: string)
    requires forall i :: 0 <= i < |s| ==> (s[i] as int) < 0x80
    ensures |Utf8(s)| == |s| && forall i :: 0 <= i < |s| ==> Utf8(s)[i] == s[i] as int
  {
    if s != "" { Utf8Ascii(s[1..]); }
  }

  lemma {:induction false} Utf8Append(s: string, t: string)
    ensures Utf8(s + t) == Utf8(s) + Utf8(t)
  {
    hide Utf8Char;
    if s == "" {
      assert s + t == t;
    } else {
      assert (s + t)[1..] == s[1..] + t;
      Utf8Append(s[1..], t);
    }
  }

  // ---- base64url without padding ----

  function Symbol(v: int): (c: char)
    requires 0 <= v < 64
    ensures SymbolValue(c) == v
  {
    if v < 26 then (65 + v) as char
    else if v < 52 then (71 + v) as char
    else if v < 62 then (v - 4) as char
    else if v == 62 then '-' else '_'
  }

  /** The value of a base64url character, or -1. */
  function SymbolValue(c: char): (v: int)
    ensures -1 <= v < 64
  {
    if 'A' <= c <= 'Z' then c as int - 65
    else if 'a' <= c <= 'z' then c as int - 71
    else if '0' <= c <= '9' then c as int + 4
    else if c == '-' then 62 else if c == '_' then 63 else -1
  }

  predicate Base64UrlText(s: string) { forall i :: 0 <= i < |s| ==> SymbolValue(s[i]) >= 0 }

  function Quad(x: Byte, y: Byte, z: Byte): (s: string)
    ensures |s| == 4 && Base64UrlText(s)
  {
    [Symbol(x / 4), Symbol(x % 4 * 16 + y / 16), Symbol(y % 16 * 4 + z / 64), Symbol(z % 64)]
  }

  /** urlsafe_b64encode with the padding stripped. */
  function Base64Url(b: Bytes): (s: string)
    ensures Base64UrlText(s)
  {
    if b == [] then ""
    else if |b| == 1 then [Symbol(b[0] / 4), Symbol(b[0] % 4 * 16)]
    else if |b| == 2 then [Symbol(b[0] / 4), Symbol(b[0] % 4 * 16 + b[1] / 16), Symbol(b[1] % 16 * 4)]
    else Quad(b[0], b[1], b[2]) + Base64Url(b[3..])
  }

  /** Padding restored and decoded; None is the decoder's padding error. Low bits that no byte
      covers are ignored. */
  function Base64UrlDecode(s: string): (r: Option<Bytes>)
    requires Base64UrlText(s)
  {
    if s == "" then Some([])
    else if |s| == 1 then None
    else
      var v0, v1 := SymbolValue(s[0]), SymbolValue(s[1]);
      if |s| == 2 then Some([v0 * 4 + v1 / 16])
      else
        var v2 := SymbolValue(s[2]);
        if |s| == 3 then Some([v0 * 4 + v1 / 16, v1 % 16 * 16 + v2 / 4])
        else
          match Base64UrlDecode(s[4..])
          case None => None
          case Some(rest) =>
            Some([v0 * 4 + v1 / 16, v1 % 16 * 16 + v2 / 4, v2 % 4 * 64 + SymbolValue(s[3])] + rest)
  }

  /** Stripping the padding and restoring it loses nothing. */
  lemma {:induction false} Base64UrlRoundTrip(b: Bytes)
    ensures Base64UrlDecode(Base64Url(b)) == Some(b)
  {
    hide Quad, SymbolValue, Symbol, Base64UrlDecode;
    if b == [] {
      NothingRoundTrips();
    } else if |b| == 1 {
      OneByteRoundTrips(b);
    } else if |b| == 2 {
      TwoBytesRoundTrip(b);
    } else {
      Base64UrlRoundTrip(b[3..]);
      DecodeQuad(b[0], b[1], b[2], Base64Url(b[3..]));
      assert b == [b[0], b[1], b[2]] + b[3..];
    }
  }

  lemma NothingRoundTrips()
    ensures Base64UrlDecode(Base64Url([])) == Some([])
  {
  }

  lemma OneByteRoundTrips(b: Bytes)
    requires |b| == 1
    ensures Base64UrlDecode(Base64Url(b)) == Some(b)
  {
    hide Symbol, SymbolValue;
    assert b == [b[0]];
    ThreeBytes(b[0], 0, 0);
  }

  lemma TwoBytesRoundTrip(b: Bytes)
    requires |b| == 2
    ensures Base64UrlDecode(Base64Url(b)) == Some(b)
  {
    hide Symbol, SymbolValue;
    assert b == [b[0], b[1]];
    ThreeBytes(b[0], b[1], 0);
  }

  lemma DecodeQuad(x: Byte, y: Byte, z: Byte, t: string)
    requires Base64UrlText(t)
    ensures Base64UrlText(Quad(x, y, z) + t)
    ensures Base64UrlDecode(Quad(x, y, z) + t) ==
      if Base64UrlDecode(t) == None then None else Some([x, y, z] + Base64UrlDecode(t).value)
  {
    hide Symbol, SymbolValue;
    var s := Quad(x, y, z) + t;
    assert s[4..] == t;
    assert SymbolValue(s[0]) == x / 4 && SymbolValue(s[1]) == x % 4 * 16 + y / 16;
    assert SymbolValue(s[2]) == y % 16 * 4 + z / 64 && SymbolValue(s[3]) == z % 64;
    ThreeBytes(x, y, z);
  }

  lemma ThreeBytes(x: Byte, y: Byte, z: Byte)
    ensures x / 4 * 4 + (x % 4 * 16 + y / 16) / 16 == x
    ensures (x % 4 * 16 + y / 16) % 16 * 16 + (y % 16 * 4 + z / 64) / 4 == y
    ensures (y % 16 * 4 + z / 64) % 4 * 64 + z % 64 == z
  {
    assert (x % 4 * 16 + y / 16) / 16 == x % 4 && (x % 4 * 16 + y / 16) % 16 == y / 16;
    assert (y % 16 * 4 + z / 64) / 4 == y % 16 && (y % 16 * 4 + z / 64) % 4 == z / 64;
  }

  lemma Base64UrlInjective(a: Bytes, b: Bytes)
    requires Base64Url(a) == Base64Url(b)
    ensures a == b
  {
    Base64UrlRoundTrip(a);
    Base64UrlRoundTrip(b);
  }
}
