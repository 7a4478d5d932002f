/** The canonicalizer of a2a_jcs_node.js: ECMAScript numbers and UTF-16 member order. */
module Rfc8785 {
  import opened Sorting
  import opened Encodings
  import opened CanonicalJson
  import opened StringEscapes

  /** A finite Number as ECMA-262 section 6.1.6.1.20 describes it before printing: zero of either
      sign, or a sign, the shortest decimal digits, and the position of the decimal point. */
  datatype Number = Zero | Finite(negative: bool, digits: string, point: int)

  predicate ValidNumber(n: Number) {
    n.Finite? ==>
      && n.digits != "" && AllDigits(n.digits)
      && n.digits[0] != '0' && n.digits[|n.digits| - 1] != '0'
  }

  type EsNumber = n: Number | ValidNumber(n) witness Zero

  function Zeros(k: nat): (s: string)
    ensures |s| == k && forall i :: 0 <= i < k ==> s[i] == '0'
  {
    seq(k, _ => '0')
  }

  function ExponentText(e: int): (s: string) {
    if e >= 0 then "+" + Decimal(e) else "-" + Decimal(-e)
  }

  /** Number::toString of a positive number. */
  function Magnitude(digits: string, n: int): (s: string)
    requires digits != ""
  {
    var k := |digits|;
    if k <= n <= 21 then digits + Zeros(n - k)
    else if 0 < n <= 21 then digits[..n] + "." + digits[n..]
    else if -6 < n <= 0 then "0." + Zeros(-n) + digits
    else
      (if k == 1 then digits else digits[..1] + "." + digits[1..]) + "e" + ExponentText(n - 1)
  }

  function NumberToString(n: EsNumber): (s: string) {
    match n
    case Zero => "0"
    case Finite(negative, digits, point) =>
      (if negative then "-" else "") + Magnitude(digits, point)
  }

  const STYLE: Style<EsNumber> := Style(EscapeControls, NumberToString, Utf16Le)

  // ---- Printing a number loses nothing ----

  predicate NumberChar(c: char) { IsDigit(c) || c == '.' || c == 'e' || c == '+' || c == '-' }

  lemma MagnitudeChars(digits: string, n: int)
    requires digits != "" && AllDigits(digits)
    ensures Magnitude(digits, n) != "" && IsDigit(Magnitude(digits, n)[0])
    ensures forall i :: 0 <= i < |Magnitude(digits, n)| ==> NumberChar(Magnitude(digits, n)[i])
  {
    if !(-6 < n <= 21) {
      var e := ExponentText(n - 1);
      assert forall i :: 0 <= i < |e| ==> NumberChar(e[i]);
    }
  }

  lemma NumberTextsAreWords(n: EsNumber)
    ensures NumberText(NumberToString(n))
  {
    if n.Finite? {
      MagnitudeChars(n.digits, n.point);
      var m, s := Magnitude(n.digits, n.point), NumberToString(n);
      assert forall i :: 0 <= i < |s| ==> NumberChar(s[i]);
      assert s[0] == '-' || IsDigit(s[0]);
    }
  }

  /** The four layouts of Number::toString, told apart by the text alone. */
  datatype Layout = Whole | Fraction | Small | Scientific

  function LayoutOf(digits: string, n: int): (l: Layout) {
    if |digits| <= n <= 21 then Whole
    else if 0 < n <= 21 then Fraction
    else if -6 < n <= 0 then Small
    else Scientific
  }

  lemma LayoutFromText(digits: string, n: int)
    requires digits != "" && AllDigits(digits) && digits[0] != '0'
    ensures 'e' in Magnitude(digits, n) <==> LayoutOf(digits, n).Scientific?
    ensures '.' !in Magnitude(digits, n) && 'e' !in Magnitude(digits, n) <==> LayoutOf(digits, n).Whole?
    ensures Magnitude(digits, n)[0] == '0' <==> LayoutOf(digits, n).Small?
  {
    var m := Magnitude(digits, n);
    match LayoutOf(digits, n) {
      case Whole => assert forall i :: 0 <= i < |m| ==> IsDigit(m[i]);
      case Fraction => assert m[n] == '.'; assert forall i :: 0 <= i < |m| && i != n ==> IsDigit(m[i]);
      case Small => assert m[1] == '.'; assert forall i :: 0 <= i < |m| && i != 1 ==> IsDigit(m[i]);
      case Scientific =>
        var front := if |digits| == 1 then digits else digits[..1] + "." + digits[1..];
        assert m[|front|] == 'e';
    }
  }

  lemma MagnitudeInjective(c: string, m: int, d: string, n: int)
    requires ValidNumber(Finite(false, c, m)) && ValidNumber(Finite(false, d, n))
    requires Magnitude(c, m) == Magnitude(d, n)
    ensures c == d && m == n
  {
    LayoutFromText(c, m);
    LayoutFromText(d, n);
    match LayoutOf(c, m) {
      case Whole => TrailingZeros(c, m - |c|, d, n - |d|);
      case Fraction => FractionInjective(c, m, d, n);
      case Small =>
        assert "0." + (Zeros(-m) + c) == Magnitude(c, m) && "0." + (Zeros(-n) + d) == Magnitude(d, n);
        SplitAtLength("0.", "0.", Zeros(-m) + c, Zeros(-n) + d);
        LeadingZeros(-m, c, -n, d);
      case Scientific => ScientificInjective(c, m, d, n);
    }
  }

  lemma FractionInjective(c: string, m: int, d: string, n: int)
    requires AllDigits(c) && AllDigits(d) && 0 < m < |c| && 0 < n < |d|
    requires c[..m] + "." + c[m..] == d[..n] + "." + d[n..]
    ensures c == d && m == n
  {
    assert '.' !in c && '.' !in d;
    SplitAtSeparator('.', c[..m], d[..n], c[m..], d[n..]);
    assert c == c[..m] + c[m..] && d == d[..n] + d[n..];
  }

  lemma TrailingZeros(c: string, i: nat, d: string, j: nat)
    requires c != "" && d != "" && c[|c| - 1] != '0' && d[|d| - 1] != '0'
    requires c + Zeros(i) == d + Zeros(j)
    ensures c == d && i == j
  {
    var a, b := c + Zeros(i), d + Zeros(j);
    assert forall k :: |c| <= k < |a| ==> a[k] == '0';
    assert forall k :: |d| <= k < |b| ==> b[k] == '0';
    assert a[|c| - 1] == c[|c| - 1] && b[|d| - 1] == d[|d| - 1];
    assert |c| == |d|;
    assert c == a[..|c|] && d == b[..|d|];
  }

  lemma LeadingZeros(i: nat, c: string, j: nat, d: string)
    requires c != "" && d != "" && c[0] != '0' && d[0] != '0'
    requires Zeros(i) + c == Zeros(j) + d
    ensures c == d && i == j
  {
    var a, b := Zeros(i) + c, Zeros(j) + d;
    assert forall k :: 0 <= k < i ==> a[k] == '0';
    assert forall k :: 0 <= k < j ==> b[k] == '0';
    assert a[i] == c[0] && b[j] == d[0];
    assert i == j;
    assert c == a[i..] && d == b[j..];
  }

  function Mantissa(digits: string): (s: string)
    requires digits != ""
  {
    if |digits| == 1 then digits else digits[..1] + "." + digits[1..]
  }

  lemma MantissaHasNoE(c: string)
    requires c != "" && AllDigits(c)
    ensures 'e' !in Mantissa(c)
  {
    assert forall i :: 0 <= i < |Mantissa(c)| ==> Mantissa(c)[i] == '.' || IsDigit(Mantissa(c)[i]);
  }

  lemma ScientificInjective(c: string, m: int, d: string, n: int)
    requires c != "" && d != "" && AllDigits(c) && AllDigits(d)
    requires Mantissa(c) + "e" + ExponentText(m - 1) == Mantissa(d) + "e" + ExponentText(n - 1)
    ensures c == d && m == n
  {
    hide ExponentText, Mantissa;
    MantissaHasNoE(c);
    MantissaHasNoE(d);
    SplitAtSeparator('e', Mantissa(c), Mantissa(d), ExponentText(m - 1), ExponentText(n - 1));
    ExponentInjective(m - 1, n - 1);
    MantissaInjective(c, d);
  }

  lemma ExponentInjective(e: int, f: int)
    requires ExponentText(e) == ExponentText(f)
    ensures e == f
  {
    var s, t := ExponentText(e), ExponentText(f);
    assert s[0] == t[0] && s[1..] == t[1..];
    DecimalInjective(if e >= 0 then e else -e, if f >= 0 then f else -f);
  }

  lemma MantissaInjective(c: string, d: string)
    requires c != "" && d != "" && Mantissa(c) == Mantissa(d)
    ensures c == d
  {
    assert |c| == |d|;
    assert forall i :: 0 <= i < |c| ==> c[i] == Mantissa(c)[if i == 0 then 0 else i + 1];
    assert forall i :: 0 <= i < |d| ==> d[i] == Mantissa(d)[if i == 0 then 0 else i + 1];
  }

  lemma NumberToStringInjective(m: EsNumber, n: EsNumber)
    requires NumberToString(m) == NumberToString(n)
    ensures m == n
  {
    hide Magnitude;
    SignFromText(m);
    SignFromText(n);
    if m.Finite? && n.Finite? {
      var sign := if m.negative then "-" else "";
      SplitAtLength(sign, sign, Magnitude(m.digits, m.point), Magnitude(n.digits, n.point));
      MagnitudeInjective(m.digits, m.point, n.digits, n.point);
    }
  }

  lemma SignFromText(n: EsNumber)
    ensures NumberToString(n) != ""
    ensures NumberToString(n)[0] == '-' <==> n.Finite? && n.negative
    ensures NumberToString(n) == "0" <==> n.Zero?
  {
    if n.Finite? {
      MagnitudeChars(n.digits, n.point);
      LayoutFromText(n.digits, n.point);
      var m := Magnitude(n.digits, n.point);
      assert !n.negative ==> NumberToString(n) == m;
      assert m[0] == '0' ==> |m| > 1;
    }
  }

  /** An exponent is written exactly for numbers below a millionth and from 10^21 on. */
  lemma ExponentIff(n: EsNumber)
    ensures 'e' in NumberToString(n) <==> n.Finite? && (n.point <= -6 || n.point > 21)
  {
    if n.Finite? {
      LayoutFromText(n.digits, n.point);
      var m := Magnitude(n.digits, n.point);
      assert n.negative ==> NumberToString(n)[1..] == m;
      assert !n.negative ==> NumberToString(n) == m;
      if 'e' in NumberToString(n) {
        var i :| 0 <= i < |NumberToString(n)| && NumberToString(n)[i] == 'e';
        assert n.negative ==> m[i - 1] == 'e';
      }
      if 'e' in m {
        var i :| 0 <= i < |m| && m[i] == 'e';
        assert NumberToString(n)[if n.negative then i + 1 else i] == 'e';
      }
    }
  }

  lemma StyleIsLawful()
    ensures Lawful(STYLE)
  {
    EscapeControlsIsPrefixCode();
    Utf16OrderIsTotal();
    forall n: EsNumber ensures NumberText(STYLE.numText(n)) { NumberTextsAreWords(n); }
    forall m: EsNumber, n: EsNumber | STYLE.numText(m) == STYLE.numText(n) ensures m == n {
      NumberToStringInjective(m, n);
    }
  }

  /** Members are printed in the ascending order of their names' UTF-16 code units. */
  lemma MembersInUnitOrder(ms: seq<Member<EsNumber>>, x: string, y: string) returns (a: string, b: string, c: string)
    requires x in Names(ms) && y in Names(ms) && x != y
    requires Utf16(x) <= Utf16(y) || SmallerAt(Utf16(x), Utf16(y))
    ensures Canon(STYLE, Obj(ms)) == a + MemberText(STYLE, ms, x) + b + MemberText(STYLE, ms, y) + c
  {
    Utf16OrderIsTotal();
    Utf16LeMeans(x, y);
    a, b, c := SmallerNameFirst(STYLE, ms, x, y);
  }

  /** The RFC 8785 text of two values is the same exactly when they are equal up to the order
      of object members. */
  lemma CanonicalIffEqualUpToMemberOrder(v: Json<EsNumber>, w: Json<EsNumber>)
    requires WellFormed(v) && WellFormed(w)
    ensures Canon(STYLE, v) == Canon(STYLE, w) <==> Denote(v) == Denote(w)
  {
    StyleIsLawful();
    CanonicalTextIffSameMeaning(STYLE, v, w);
  }
}
