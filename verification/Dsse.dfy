/** The DSSE v1 pre-authentication encoding that provenance bundles sign. */
module Dsse {
  import opened Wrappers
  import opened Encodings

  const SPACE: Byte := 32

  /** The ASCII bytes of "DSSEv1 ". */
  const MAGIC: Bytes := [68, 83, 83, 69, 118, 49, 32]

  function LengthPrefix(n: nat): (b: Bytes) { Utf8(Decimal(n)) + [SPACE] }

  /** dsse_pae over an already encoded payload type. */
  function PaeOfBytes(kind: Bytes, payload: Bytes): (b: Bytes) {
    MAGIC + (LengthPrefix(|kind|) + Body(kind, payload))
  }

  function Body(kind: Bytes, payload: Bytes): (b: Bytes) {
    kind + ([SPACE] + (LengthPrefix(|payload|) + payload))
  }

  function Pae(payloadType: string, payload: Bytes): (b: Bytes) { PaeOfBytes(Utf8(payloadType), payload) }

  /** As one text up to the payload. */
  lemma PaeLayout(payloadType: string, payload: Bytes)
    ensures Pae(payloadType, payload) ==
      Utf8("DSSEv1 " + Decimal(|Utf8(payloadType)|) + " " + payloadType + " " + Decimal(|payload|) + " ") + payload
  {
    hide Utf8, Decimal, PaeOfBytes;
    var m, n := Decimal(|Utf8(payloadType)|), Decimal(|payload|);
    LiteralBytes();
    var text := "DSSEv1 " + m;
    Utf8Append("DSSEv1 ", m);
    Utf8Append(text, " ");
    Utf8Append(text + " ", payloadType);
    Utf8Append(text + " " + payloadType, " ");
    Utf8Append(text + " " + payloadType + " ", n);
    Utf8Append(text + " " + payloadType + " " + n, " ");
    PaeInPieces(Utf8(payloadType), payload);
  }

  lemma PaeInPieces(kind: Bytes, payload: Bytes)
    ensures PaeOfBytes(kind, payload) ==
      MAGIC + Utf8(Decimal(|kind|)) + [SPACE] + kind + [SPACE] + Utf8(Decimal(|payload|)) + [SPACE] + payload
  {
    hide Utf8, Decimal;
  }

  lemma LiteralBytes()
    ensures Utf8("DSSEv1 ") == MAGIC && Utf8(" ") == [SPACE]
  {
    hide Utf8;
    Utf8Ascii("DSSEv1 ");
    Utf8Ascii(" ");
  }

  // ---- Reading an encoding back ----

  predicate DigitBytes(b: Bytes) { forall i :: 0 <= i < |b| ==> 48 <= b[i] < 58 }

  function AsText(b: Bytes): (s: string)
    requires DigitBytes(b)
    ensures |s| == |b| && AllDigits(s)
    ensures forall i :: 0 <= i < |b| ==> s[i] as int == b[i]
  {
    seq(|b|, i requires 0 <= i < |b| => b[i] as char)
  }

  function FirstSpace(b: Bytes): (i: nat)
    ensures i <= |b| && forall k :: 0 <= k < i ==> b[k] != SPACE
    ensures i < |b| ==> b[i] == SPACE
  {
    if b == [] || b[0] == SPACE then 0
    else 1 + FirstSpace(b[1..])
  }

  /** A length, its space, and what follows; no superfluous zeros. */
  function ReadLength(b: Bytes): (r: Option<(nat, Bytes)>) {
    var i := FirstSpace(b);
    if i == |b| || i == 0 || !DigitBytes(b[..i]) || (b[0] == 48 && i > 1) then None
    else Some((Numeral(AsText(b[..i])), b[i + 1..]))
  }

  function ReadBody(n: nat, b: Bytes): (r: Option<(Bytes, Bytes)>) {
    if n >= |b| || b[n] != SPACE then None
    else
      match ReadLength(b[n + 1..])
      case None => None
      case Some((m, payload)) => if m == |payload| then Some((b[..n], payload)) else None
  }

  function Read(b: Bytes): (r: Option<(Bytes, Bytes)>) {
    if !(MAGIC <= b) then None
    else
      match ReadLength(b[|MAGIC|..])
      case None => None
      case Some((n, rest)) => ReadBody(n, rest)
  }

  lemma DecimalBytes(n: nat)
    ensures DigitBytes(Utf8(Decimal(n))) && Utf8(Decimal(n)) != [] && AsText(Utf8(Decimal(n))) == Decimal(n)
  {
    Utf8Ascii(Decimal(n));
  }

  lemma ZeroHasOneDigit()
    ensures |Utf8(Decimal(0))| == 1
  {
  }

  lemma ReadLengthInverts(n: nat, rest: Bytes)
    ensures ReadLength(LengthPrefix(n) + rest) == Some((n, rest))
  {
    var d, b := Utf8(Decimal(n)), LengthPrefix(n) + rest;
    DecimalBytes(n);
    DecimalRoundTrip(n);
    hide Utf8, Decimal, Numeral;
    var i := FirstSpace(b);
    assert b[|d|] == SPACE && forall k :: 0 <= k < |d| ==> b[k] == d[k];
    assert i == |d|;
    assert b[..i] == d && b[i + 1..] == rest;
    assert d[0] == Decimal(n)[0] as int;
    assert n == 0 ==> |d| == 1 by { ZeroHasOneDigit(); }
  }

  lemma ReadLengthSound(b: Bytes)
    requires ReadLength(b).Some?
    ensures b == LengthPrefix(ReadLength(b).value.0) + ReadLength(b).value.1
  {
    var i := FirstSpace(b);
    var s := AsText(b[..i]);
    NumeralRoundTrip(s);
    DecimalBytes(Numeral(s));
    Utf8Ascii(s);
    assert Utf8(s) == b[..i];
    assert b == b[..i] + [b[i]] + b[i + 1..];
  }

  lemma ReadBodyIff(b: Bytes, n: nat, kind: Bytes, payload: Bytes)
    ensures ReadBody(n, b) == Some((kind, payload)) <==> n == |kind| && b == Body(kind, payload)
  {
    if n == |kind| && b == Body(kind, payload) {
      assert b[..n] == kind && b[n] == SPACE && b[n + 1..] == LengthPrefix(|payload|) + payload;
      ReadLengthInverts(|payload|, payload);
    }
    if ReadBody(n, b) == Some((kind, payload)) {
      ReadLengthSound(b[n + 1..]);
      assert b == b[..n] + ([b[n]] + b[n + 1..]);
    }
  }

  /** The reader accepts exactly the encodings, and gives back what was encoded. */
  lemma ReadIffEncoded(b: Bytes, kind: Bytes, payload: Bytes)
    ensures Read(b) == Some((kind, payload)) <==> b == PaeOfBytes(kind, payload)
  {
    if b == PaeOfBytes(kind, payload) {
      assert b[|MAGIC|..] == LengthPrefix(|kind|) + Body(kind, payload);
      ReadLengthInverts(|kind|, Body(kind, payload));
      ReadBodyIff(Body(kind, payload), |kind|, kind, payload);
    }
    if Read(b) == Some((kind, payload)) {
      var (n, rest) := ReadLength(b[|MAGIC|..]).value;
      ReadLengthSound(b[|MAGIC|..]);
      ReadBodyIff(rest, n, kind, payload);
      assert b == MAGIC + b[|MAGIC|..];
    }
  }

  /** Signed bytes fix both the payload type and the payload. */
  lemma PaeUnambiguous(t: string, p: Bytes, u: string, q: Bytes)
    ensures Pae(t, p) == Pae(u, q) <==> t == u && p == q
  {
    if Pae(t, p) == Pae(u, q) {
      ReadIffEncoded(Pae(t, p), Utf8(t), p);
      ReadIffEncoded(Pae(u, q), Utf8(u), q);
      Utf8Injective(t, u);
    }
  }
}
