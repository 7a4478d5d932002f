/** The text of a number denotes that number: read as a decimal numeral it has its value. */
module NumberMeaning {
  import opened Encodings
  import opened Rfc8785

  // ---- The value of a numeral and of a number ----

  function Pow10(e: int): (r: real)
    decreases if e < 0 then -e else e
  {
    if e == 0 then 1.0 else if e > 0 then Pow10(e - 1) * 10.0 else Pow10(e + 1) / 10.0
  }

  /** The value ECMA-262 gives the digits: those of a fraction, moved by the point's position. */
  function ValueOf(n: EsNumber): (r: real) {
    match n
    case Zero => 0.0
    case Finite(negative, digits, point) =>
      (if negative then -1.0 else 1.0) * (Numeral(digits) as real * Pow10(point - |digits|))
  }

  /** The first place of `c`, or the length where there is none. */
  function Place(c: char, t: string): (i: nat)
    ensures i <= |t| && c !in t[..i] && (i < |t| ==> t[i] == c)
  {
    if t == "" || t[0] == c then 0
    else
      var i := 1 + Place(c, t[1..]);
      assert t[..i] == [t[0]] + t[1..][..i - 1];
      i
  }

  function Digits(t: string): (n: nat) { if AllDigits(t) then Numeral(t) else 0 }

  function Signed(t: string): (e: int) {
    if t == "" then 0
    else if t[0] == '-' then 0 - Digits(t[1..])
    else if t[0] == '+' then Digits(t[1..]) else Digits(t)
  }

  /** What a JSON number means: digits with or without a point, times a power of ten. */
  function Denoted(t: string): (r: real) {
    if t != "" && t[0] == '-' then -Unsigned(t[1..]) else Unsigned(t)
  }

  function Unsigned(t: string): (r: real) {
    var i := Place('e', t);
    Plain(t[..i]) * Pow10(if i == |t| then 0 else Signed(t[i + 1..]))
  }

  function Plain(t: string): (r: real) {
    var i := Place('.', t);
    if i == |t| then Digits(t) as real
    else Digits(t[..i] + t[i + 1..]) as real * Pow10(i + 1 - |t|)
  }

  // ---- Powers of ten ----

  lemma {:induction false} Pow10Add(a: int, b: int)
    ensures Pow10(a + b) == Pow10(a) * Pow10(b)
    decreases if a < 0 then -a else a
  {
    hide Pow10;
    Pow10Of0();
    if a > 0 {
      Pow10Add(a - 1, b);
      Pow10Up(a - 1);
      Pow10Up(a - 1 + b);
      TimesTen(Pow10(a - 1), Pow10(b));
    } else if a < 0 {
      Pow10Add(a + 1, b);
      Pow10Up(a);
      Pow10Up(a + b);
      TimesTen(Pow10(a), Pow10(b));
    }
  }

  lemma Pow10Of0()
    ensures Pow10(0) == 1.0
  {
  }

  lemma Pow10Up(e: int)
    ensures Pow10(e + 1) == Pow10(e) * 10.0
  {
  }

  lemma TimesTen(x: real, y: real)
    ensures x * 10.0 * y == x * y * 10.0
  {
  }

  // ---- Numerals ----

  lemma {:induction false} NumeralOfZeros(s: string, k: nat)
    requires AllDigits(s)
    ensures AllDigits(s + Zeros(k)) && Numeral(s + Zeros(k)) as real == Numeral(s) as real * Pow10(k)
  {
    hide Pow10, Numeral;
    if k == 0 {
      Pow10Of0();
      assert s + Zeros(0) == s;
    } else {
      NumeralOfZeros(s, k - 1);
      NumeralSnoc(s + Zeros(k - 1), '0');
      assert s + Zeros(k) == s + Zeros(k - 1) + ['0'];
      Pow10Up(k - 1);
      Regroup(Numeral(s) as real, Pow10(k - 1), 10.0);
    }
  }

  lemma NumeralSnoc(s: string, c: char)
    requires AllDigits(s) && IsDigit(c)
    ensures AllDigits(s + [c]) && Numeral(s + [c]) == 10 * Numeral(s) + DigitValue(c)
  {
    assert (s + [c])[..|s|] == s;
  }

  lemma {:induction false} LeadingZeros(k: nat, s: string)
    requires AllDigits(s)
    ensures AllDigits(Zeros(k) + s) && Numeral(Zeros(k) + s) == Numeral(s)
  {
    var t := Zeros(k) + s;
    if s != "" {
      LeadingZeros(k, s[..|s| - 1]);
      assert t[..|t| - 1] == Zeros(k) + s[..|s| - 1];
    } else if k > 0 {
      LeadingZeros(k - 1, "");
      assert t[..|t| - 1] == Zeros(k - 1) + "";
    }
  }

  // ---- Taking a text apart ----

  lemma {:induction false} PlaceAt(c: char, a: string, b: string)
    requires c !in a
    ensures Place(c, a + [c] + b) == |a| && (a + [c] + b)[..|a|] == a && (a + [c] + b)[|a| + 1..] == b
  {
    if a != "" {
      PlaceAt(c, a[1..], b);
      assert (a + [c] + b)[1..] == a[1..] + [c] + b;
    }
  }

  lemma PlainPoint(a: string, b: string)
    requires AllDigits(a) && AllDigits(b)
    ensures AllDigits(a + b) && Plain(a + "." + b) == Numeral(a + b) as real * Pow10(-|b|)
  {
    hide Pow10, Numeral, Place, AllDigits;
    DigitsAppend(a, b);
    PlaceAt('.', a, b);
    assert |a + "." + b| == |a| + 1 + |b|;
  }

  lemma DigitsAppend(a: string, b: string)
    requires AllDigits(a) && AllDigits(b)
    ensures AllDigits(a + b) && '.' !in a && 'e' !in a
  {
  }

  lemma PlainWhole(a: string)
    requires AllDigits(a)
    ensures Plain(a) == Numeral(a) as real
  {
    hide Pow10, Numeral;
  }

  lemma ExponentReads(e: int)
    ensures Signed(ExponentText(e)) == e
  {
    DecimalRoundTrip(if e >= 0 then e else -e);
    var t := ExponentText(e);
    assert t[1..] == Decimal(if e >= 0 then e else -e);
  }

  lemma NoExponent(t: string)
    requires 'e' !in t
    ensures Unsigned(t) == Plain(t)
  {
    hide Plain, Pow10;
    Pow10Of0();
    assert t[..|t|] == t;
  }

  lemma Exponent(front: string, e: int)
    requires 'e' !in front
    ensures Unsigned(front + "e" + ExponentText(e)) == Plain(front) * Pow10(e)
  {
    hide Plain, Pow10, Place, ExponentText;
    PlaceAt('e', front, ExponentText(e));
    ExponentReads(e);
  }

  lemma WholeMeans(digits: string, n: int)
    requires digits != "" && AllDigits(digits) && n >= |digits|
    ensures Unsigned(digits + Zeros(n - |digits|)) == Numeral(digits) as real * Pow10(n - |digits|)
  {
    hide Unsigned, Plain, Pow10, Numeral, Zeros;
    NumeralOfZeros(digits, n - |digits|);
    PlainWhole(digits + Zeros(n - |digits|));
    NoExponent(digits + Zeros(n - |digits|));
  }

  lemma FractionMeans(digits: string, n: int)
    requires AllDigits(digits) && 0 < n < |digits|
    ensures Unsigned(digits[..n] + "." + digits[n..]) == Numeral(digits) as real * Pow10(n - |digits|)
  {
    hide Unsigned, Plain, Pow10, Numeral;
    PlainPoint(digits[..n], digits[n..]);
    assert digits[..n] + digits[n..] == digits;
    NoExponent(digits[..n] + "." + digits[n..]);
  }

  lemma SmallMeans(digits: string, n: int)
    requires digits != "" && AllDigits(digits) && n <= 0
    ensures Unsigned("0." + Zeros(-n) + digits) == Numeral(digits) as real * Pow10(n - |digits|)
  {
    hide Unsigned, Plain, Pow10, Numeral;
    LeadingZeros(1 - n, digits);
    assert "0" + (Zeros(-n) + digits) == Zeros(1 - n) + digits;
    PlainPoint("0", Zeros(-n) + digits);
    assert "0." + Zeros(-n) + digits == "0" + "." + (Zeros(-n) + digits);
    NoExponent("0." + Zeros(-n) + digits);
  }

  lemma ScientificMeans(digits: string, n: int)
    requires digits != "" && AllDigits(digits)
    ensures var front := if |digits| == 1 then digits else digits[..1] + "." + digits[1..];
      Unsigned(front + "e" + ExponentText(n - 1)) == Numeral(digits) as real * Pow10(n - |digits|)
  {
    hide Unsigned, Plain, Pow10, Numeral, ExponentText;
    var front := if |digits| == 1 then digits else digits[..1] + "." + digits[1..];
    Exponent(front, n - 1);
    if |digits| == 1 {
      PlainWhole(digits);
    } else {
      PlainPoint(digits[..1], digits[1..]);
      assert digits[..1] + digits[1..] == digits;
      Pow10Add(1 - |digits|, n - 1);
      Regroup(Numeral(digits) as real, Pow10(1 - |digits|), Pow10(n - 1));
    }
  }

  lemma Regroup(x: real, y: real, z: real)
    ensures x * y * z == x * (y * z)
  {
  }

  lemma MagnitudeMeans(digits: string, n: int)
    requires digits != "" && AllDigits(digits)
    ensures Unsigned(Magnitude(digits, n)) == Numeral(digits) as real * Pow10(n - |digits|)
  {
    hide Unsigned, Pow10, Numeral;
    if |digits| <= n <= 21 {
      WholeMeans(digits, n);
    } else if 0 < n <= 21 {
      FractionMeans(digits, n);
    } else if -6 < n <= 0 {
      SmallMeans(digits, n);
    } else {
      ScientificMeans(digits, n);
    }
  }

  lemma ZeroMeans()
    ensures Denoted("0") == 0.0
  {
    hide Pow10;
    NoExponent("0");
    PlainWhole("0");
  }

  lemma SignMeans(m: string)
    requires m != "" && m[0] != '-'
    ensures Denoted(m) == Unsigned(m) && Denoted("-" + m) == -Unsigned(m)
  {
    hide Unsigned;
    assert ("-" + m)[1..] == m;
  }

  /** The text of a number denotes it. */
  lemma NumberTextMeans(n: EsNumber)
    ensures Denoted(NumberToString(n)) == ValueOf(n)
  {
    hide Magnitude, Pow10, Unsigned, Denoted, Numeral;
    if n.Finite? {
      var m := Magnitude(n.digits, n.point);
      MagnitudeMeans(n.digits, n.point);
      MagnitudeChars(n.digits, n.point);
      SignMeans(m);
      assert "" + m == m;
    } else {
      ZeroMeans();
    }
  }
}
