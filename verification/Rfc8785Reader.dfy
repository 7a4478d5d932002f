/** A parser for RFC 8785 text: it inverts the escapes and the number texts. */
module Rfc8785Reader {
  import opened Wrappers
  import opened Encodings
  import opened CanonicalJson
  import opened StringEscapes
  import opened Rfc8785
  import opened CanonicalReader

  // ---- Escapes ----

  /** A character that is written as it stands. */
  predicate Plain(c: char) { c as int >= 32 && c != '"' && c != '\\' }

  /** The character at the front of an escaped text, and the length of its escape. A character that
      could have been written shorter, or had to be escaped, is refused. */
  function ReadEscape(t: string): (o: Option<(char, nat)>) {
    if t == "" then None
    else if t[0] != '\\' then if Plain(t[0]) then Some((t[0], 1)) else None
    else if |t| >= 2 && LongForm(t[1]).Some? then Some((LongForm(t[1]).value, 2))
    else if |t| >= 6 && t[1] == 'u' && t[2] == '0' && t[3] == '0' then
      match (HexValue(t[4]), HexValue(t[5]))
      case (Some(h), Some(l)) =>
        if h < 2 && ShortEscape((16 * h + l) as char) == ' ' then Some(((16 * h + l) as char, 6)) else None
      case _ => None
    else None
  }

  lemma ReadEscapeInverts(c: char, x: string)
    ensures ReadEscape(EscapeControls(c) + x) == Some((c, |EscapeControls(c)|))
  {
    var t := EscapeControls(c) + x;
    if ShortEscape(c) == ' ' && (c as int) < 32 {
      var u := c as int;
      var h := Hex4(u);
      assert u / 16 / 16 / 16 == 0 && u / 16 / 16 % 16 == 0 && u / 16 % 16 == u / 16 && u == 16 * (u / 16) + u % 16;
      assert t[2] == h[0] && t[3] == h[1] && t[4] == h[2] && t[5] == h[3];
      HexDigitReads(u / 16);
      HexDigitReads(u % 16);
    }
  }

  /** What is read is what JSON.stringify writes for that character. */
  lemma ReadEscapeSound(t: string)
    requires ReadEscape(t).Some?
    ensures var (c, n) := ReadEscape(t).value;
      n <= |t| && t[..n] == EscapeControls(c)
  {
    var (c, n) := ReadEscape(t).value;
    if n == 6 {
      var h, l := HexValue(t[4]).value, HexValue(t[5]).value;
      var u := 16 * h + l;
      assert u / 16 == h && u % 16 == l && h / 16 == 0 && h % 16 == h;
      assert HexDigit(h) == t[4] && HexDigit(l) == t[5];
      assert Hex4(u) == [HexDigit(0), HexDigit(0), HexDigit(h), HexDigit(l)];
      assert t[..6] == [t[0], t[1], t[2], t[3], t[4], t[5]];
    } else if n == 2 {
      assert t[..2] == [t[0], t[1]];
    }
  }

  // ---- Numbers ----

  function FirstIndex(s: string, c: char): (n: nat)
    ensures n <= |s| && (forall i :: 0 <= i < n ==> s[i] != c) && (n < |s| ==> s[n] == c)
  {
    if s == "" || s[0] == c then 0 else 1 + FirstIndex(s[1..], c)
  }

  /** The text without its trailing zeros. */
  function StripZeros(s: string): (r: string) {
    if s != "" && s[|s| - 1] == '0' then StripZeros(s[..|s| - 1]) else s
  }

  function LeadingZeroCount(s: string): (n: nat)
    ensures n <= |s|
  {
    if s != "" && s[0] == '0' then 1 + LeadingZeroCount(s[1..]) else 0
  }

  /** A signed exponent, as it stands after the letter e. */
  function ReadExponent(s: string): (e: Option<int>) {
    if |s| < 2 || !AllDigits(s[1..]) then None
    else if s[0] == '+' then Some(Numeral(s[1..]))
    else if s[0] == '-' then Some(-(Numeral(s[1..]) as int))
    else None
  }

  /** Digits and decimal point of a positive number's text, by its layout. */
  function ReadMagnitude(m: string): (o: Option<(string, int)>) {
    var e, p := FirstIndex(m, 'e'), FirstIndex(m, '.');
    if e < |m| then
      match ReadExponent(m[e + 1..])
      case None => None
      case Some(n) => Some((if p < e then m[..p] + m[p + 1..e] else m[..e], n + 1))
    else if p == |m| then Some((StripZeros(m), |m|))
    else if m[0] != '0' then Some((m[..p] + m[p + 1..], p))
    else
      var rest := m[p + 1..];
      var point := -(LeadingZeroCount(rest) as int);
      Some((rest[LeadingZeroCount(rest)..], point))
  }

  /** The number whose text this is; None for a text that is no number's, which printing what was
      read and comparing finds out. */
  function ReadNumber(t: string): (n: Option<EsNumber>) {
    if t == "0" then Some(Zero)
    else
      var negative := t != "" && t[0] == '-';
      match ReadMagnitude(if negative then t[1..] else t)
      case None => None
      case Some((digits, point)) =>
        var n := Finite(negative, digits, point);
        if ValidNumber(n) && NumberToString(n) == t then Some(n) else None
  }

  lemma FirstIndexIs(s: string, c: char, n: nat)
    requires n <= |s| && (forall i :: 0 <= i < n ==> s[i] != c) && (n < |s| ==> s[n] == c)
    ensures FirstIndex(s, c) == n
  {
  }

  lemma {:induction false} StripZerosIs(c: string, k: nat)
    requires c != "" && c[|c| - 1] != '0'
    ensures StripZeros(c + Zeros(k)) == c
  {
    if k == 0 {
      assert c + Zeros(0) == c;
    } else {
      assert (c + Zeros(k))[..|c| + k - 1] == c + Zeros(k - 1);
      StripZerosIs(c, k - 1);
    }
  }

  lemma {:induction false} LeadingZeroCountIs(k: nat, c: string)
    requires c != "" && c[0] != '0'
    ensures LeadingZeroCount(Zeros(k) + c) == k
  {
    if k == 0 {
      assert Zeros(0) + c == c;
    } else {
      assert (Zeros(k) + c)[1..] == Zeros(k - 1) + c;
      LeadingZeroCountIs(k - 1, c);
    }
  }

  lemma WholeReads(c: string, k: nat)
    requires c != "" && AllDigits(c) && c[|c| - 1] != '0'
    ensures ReadMagnitude(c + Zeros(k)) == Some((c, |c| + k))
  {
    var m := c + Zeros(k);
    assert forall i :: 0 <= i < |m| ==> IsDigit(m[i]);
    StripZerosIs(c, k);
  }

  lemma FractionReads(c: string, n: int)
    requires AllDigits(c) && 0 < n < |c| && c[0] != '0'
    ensures ReadMagnitude(c[..n] + "." + c[n..]) == Some((c, n))
  {
    var m := c[..n] + "." + c[n..];
    assert m[n] == '.' && forall i :: 0 <= i < |m| && i != n ==> IsDigit(m[i]);
    FirstIndexIs(m, 'e', |m|);
    FirstIndexIs(m, '.', n);
    assert m[..n] == c[..n] && m[n + 1..] == c[n..] && c[..n] + c[n..] == c && m[0] == c[0];
  }

  lemma SmallReads(c: string, k: int)
    requires k >= 0 && c != "" && AllDigits(c) && c[0] != '0'
    ensures ReadMagnitude("0." + Zeros(k) + c) == Some((c, -k))
  {
    hide ReadExponent, StripZeros, FirstIndex, LeadingZeroCount;
    var m := "0." + Zeros(k) + c;
    assert m[1] == '.' && forall i :: 0 <= i < |m| && i != 1 ==> IsDigit(m[i]);
    FirstIndexIs(m, 'e', |m|);
    FirstIndexIs(m, '.', 1);
    assert m[2..] == Zeros(k) + c;
    LeadingZeroCountIs(k, c);
    assert (Zeros(k) + c)[k..] == c;
  }

  lemma ExponentReads(e: int)
    ensures ReadExponent(ExponentText(e)) == Some(e)
  {
    var d := Decimal(if e >= 0 then e else -e);
    DecimalRoundTrip(if e >= 0 then e else -e);
    assert ExponentText(e)[1..] == d;
  }

  lemma ScientificReads(c: string, n: int)
    requires c != "" && AllDigits(c)
    ensures ReadMagnitude(Mantissa(c) + "e" + ExponentText(n - 1)) == Some((c, n))
  {
    hide ExponentText, ReadExponent;
    var f, x := Mantissa(c), ExponentText(n - 1);
    var m := f + "e" + x;
    MantissaHasNoE(c);
    assert forall i :: 0 <= i < |f| ==> m[i] == f[i];
    assert m[|f|] == 'e' && m[|f| + 1..] == x;
    FirstIndexIs(m, 'e', |f|);
    ExponentReads(n - 1);
    if |c| == 1 {
      assert m[..|f|] == c && IsDigit(m[0]);
      var p := FirstIndex(m, '.');
      assert p > |f| || p == |m|;
    } else {
      assert m[1] == '.' && m[0] == c[0];
      FirstIndexIs(m, '.', 1);
      assert m[..1] == c[..1] && m[2..|f|] == c[1..] && c[..1] + c[1..] == c;
    }
  }

  lemma MagnitudeReads(c: string, n: int)
    requires ValidNumber(Finite(false, c, n))
    ensures ReadMagnitude(Magnitude(c, n)) == Some((c, n))
  {
    hide ReadMagnitude;
    match LayoutOf(c, n) {
      case Whole => WholeReads(c, n - |c|);
      case Fraction => FractionReads(c, n);
      case Small => SmallReads(c, -n);
      case Scientific => ScientificReads(c, n);
    }
  }

  /** Reading a number's text gives the number. */
  lemma ReadNumberInverts(n: EsNumber)
    ensures ReadNumber(NumberToString(n)) == Some(n)
  {
    hide ReadMagnitude, Magnitude;
    SignFromText(n);
    if n.Finite? {
      MagnitudeReads(n.digits, n.point);
      var t := NumberToString(n);
      assert n.negative ==> t[1..] == Magnitude(n.digits, n.point);
      assert !n.negative ==> t == Magnitude(n.digits, n.point);
    }
  }

  lemma ReadNumberSound(t: string)
    requires ReadNumber(t).Some?
    ensures NumberToString(ReadNumber(t).value) == t
  {
  }

  // ---- Documents ----

  const READER: Reader<EsNumber> := Reader(STYLE, ReadEscape, ReadNumber)

  lemma ReaderIsSound()
    ensures Sound(READER)
  {
    hide ReadEscape, ReadNumber, NumberToString, EscapeControls;
    forall t, c, n | READER.readChar(t) == Some((c, n)) ensures n <= |t| && t[..n] == STYLE.escape(c) {
      ReadEscapeSound(t);
    }
    forall t, n | READER.readNumber(t) == Some(n) ensures STYLE.numText(n) == t { ReadNumberSound(t); }
  }

  lemma ReaderInverts()
    ensures Inverts(READER)
  {
    hide ReadEscape, ReadNumber, NumberToString, EscapeControls, Lawful;
    StyleIsLawful();
    forall c, x: string ensures READER.readChar(STYLE.escape(c) + x) == Some((c, |STYLE.escape(c)|)) {
      ReadEscapeInverts(c, x);
    }
    forall n ensures READER.readNumber(STYLE.numText(n)) == Some(n) { ReadNumberInverts(n); }
  }

  /** A parser for RFC 8785 text: it accepts exactly the canonical texts of I-JSON values, and what
      it returns prints as the text that was read. */
  lemma ReadsExactlyCanonicalText(t: string)
    ensures ReadCanonical(READER, t).Some? <==> exists v: Json<EsNumber> :: WellFormed(v) && Canon(STYLE, v) == t
    ensures forall w :: ReadCanonical(READER, t) == Some(w) <==>
      WellFormed(w) && Arranged(STYLE, w) == w && Canon(STYLE, w) == t
  {
    hide Inverts, Sound, ReadCanonical, Canon, WellFormed, Arranged;
    ReaderInverts();
    ReaderIsSound();
    AcceptsIffCanonical(READER, t);
    forall w
      ensures ReadCanonical(READER, t) == Some(w) <==>
        WellFormed(w) && Arranged(STYLE, w) == w && Canon(STYLE, w) == t
    {
      ReadIffCanonical(READER, t, w);
    }
  }

  /** Canonicalizing and parsing give the value back, up to the order of its members. */
  lemma ParsedIsWhatWasPrinted(v: Json<EsNumber>)
    requires WellFormed(v)
    ensures var r := ReadCanonical(READER, Canon(STYLE, v));
      r.Some? && WellFormed(r.value) && Denote(r.value) == Denote(v)
  {
    hide Inverts, ReadCanonical, Canon, WellFormed, Arranged;
    ReaderInverts();
    ReadPrinted(READER, v);
  }
}
