/** What encoded texts mean: UTF-8 by its bit patterns, base64url by its alphabet and its bits. */
module EncodingMeaning {
  import opened Encodings

  // ---- UTF-8 ----

  /** One to four bytes by the size of the scalar value, whose bits they carry, six in each that
      continues another. */
  lemma Utf8CharDecodes(c: char)
    ensures var b, cp := Utf8Char(c), c as int;
      && (cp < 0x80 ==> b == [cp])
      && (0x80 <= cp < 0x800 ==> |b| == 2 && 0xC0 <= b[0] < 0xE0)
      && (0x800 <= cp < 0x10000 ==> |b| == 3 && 0xE0 <= b[0] < 0xF0)
      && (0x10000 <= cp ==> |b| == 4 && 0xF0 <= b[0] < 0xF8)
      && (forall i :: 1 <= i < |b| ==> 0x80 <= b[i] < 0xC0)
    ensures Scalar(Utf8Char(c)) == c as int
  {
    hide Scalar;
    var b, cp := Utf8Char(c), c as int;
    if |b| == 1 {
      ScalarOfLead(cp);
    } else if |b| == 2 {
      ScalarOfTwo(cp / 0x40, cp % 0x40);
    } else if |b| == 3 {
      ScalarOfThree(cp / 0x1000, cp / 0x40 % 0x40, cp % 0x40);
      Sextets(cp);
    } else {
      ScalarOfFour(cp / 0x40000, cp / 0x1000 % 0x40, cp / 0x40 % 0x40, cp % 0x40);
      Sextets(cp);
      Sextets(cp / 0x40);
    }
  }

  lemma Sextets(n: nat)
    ensures n == n / 0x40 * 0x40 + n % 0x40 && n / 0x40 / 0x40 == n / 0x1000 && n / 0x40 / 0x1000 == n / 0x40000
  {
  }

  lemma ScalarOfTwo(x: int, y: int)
    requires 0 <= x < 0x20 && 0 <= y < 0x40
    ensures Scalar([0xC0 + x, 0x80 + y]) == x * 0x40 + y
  {
    hide Scalar;
    ScalarOfLead(0xC0 + x);
    ScalarOfMore(0xC0 + x, 0x80 + y, 0, 0);
  }

  lemma ScalarOfThree(x: int, y: int, z: int)
    requires 0 <= x < 0x10 && 0 <= y < 0x40 && 0 <= z < 0x40
    ensures Scalar([0xE0 + x, 0x80 + y, 0x80 + z]) == (x * 0x40 + y) * 0x40 + z
  {
    hide Scalar;
    ScalarOfLead(0xE0 + x);
    ScalarOfMore(0xE0 + x, 0x80 + y, 0x80 + z, 0);
  }

  lemma ScalarOfFour(w: int, x: int, y: int, z: int)
    requires 0 <= w < 8 && 0 <= x < 0x40 && 0 <= y < 0x40 && 0 <= z < 0x40
    ensures Scalar([0xF0 + w, 0x80 + x, 0x80 + y, 0x80 + z]) == ((w * 0x40 + x) * 0x40 + y) * 0x40 + z
  {
    hide Scalar;
    ScalarOfLead(0xF0 + w);
    ScalarOfMore(0xF0 + w, 0x80 + x, 0x80 + y, 0x80 + z);
  }

  lemma ScalarOfMore(w: Byte, x: Byte, y: Byte, z: Byte)
    ensures Scalar([w, x]) == Scalar([w]) * 0x40 + x % 0x40
    ensures Scalar([w, x, y]) == Scalar([w, x]) * 0x40 + y % 0x40
    ensures Scalar([w, x, y, z]) == Scalar([w, x, y]) * 0x40 + z % 0x40
  {
    hide Scalar;
    ScalarSnoc([w], x);
    ScalarSnoc([w, x], y);
    ScalarSnoc([w, x, y], z);
    assert [w] + [x] == [w, x] && [w, x] + [y] == [w, x, y] && [w, x, y] + [z] == [w, x, y, z];
  }

  lemma ScalarOfLead(x: Byte)
    ensures Scalar([x]) == x % (if x < 0xC0 then 0x80 else if x < 0xE0 then 0x20 else if x < 0xF0 then 0x10 else 8)
  {
  }

  lemma ScalarSnoc(b: Bytes, x: Byte)
    requires b != []
    ensures Scalar(b + [x]) == Scalar(b) * 0x40 + x % 0x40
  {
    assert (b + [x])[..|b|] == b;
  }

  /** The bits of a lead byte, without its mark, and six of each byte after it. */
  ghost function Scalar(b: Bytes): (n: int)
    requires b != []
  {
    if |b| == 1 then
      b[0] % (if b[0] < 0xC0 then 0x80 else if b[0] < 0xE0 then 0x20 else if b[0] < 0xF0 then 0x10 else 8)
    else Scalar(b[..|b| - 1]) * 0x40 + b[|b| - 1] % 0x40
  }

  // ---- base64url ----

  /** The alphabet of section 5 of RFC 4648. */
  lemma SymbolsOfAlphabet(v: int)
    requires 0 <= v < 64
    ensures Symbol(v) as int ==
      if v < 26 then 'A' as int + v
      else if v < 52 then 'a' as int + (v - 26)
      else if v < 62 then '0' as int + (v - 52)
      else if v == 62 then '-' as int else '_' as int
  {
  }

  /** The symbols read as digits to base 64. */
  ghost function Value64(s: string): (n: int)
    requires Base64UrlText(s)
  {
    if s == "" then 0 else Value64(s[..|s| - 1]) * 64 + SymbolValue(s[|s| - 1])
  }

  /** The factor that fills the bits of the bytes up to whole symbols. */
  ghost function Fill(n: nat): (f: nat) { if n % 3 == 0 then 1 else if n % 3 == 1 then 16 else 4 }

  ghost function Pow64(k: nat): (p: nat) { if k == 0 then 1 else 64 * Pow64(k - 1) }

  /** The text is, to base 64, the number that the bytes are to base 256, with zero bits after it. */
  lemma {:induction false} Base64UrlMeans(b: Bytes)
    ensures |Base64Url(b)| == (4 * |b| + 2) / 3
    ensures Value64(Base64Url(b)) == FromBigEndian(b) * Fill(|b|)
  {
    hide Symbol, SymbolValue, Quad, Value64, FromBigEndian, Pow64, Pow256, Base64UrlText, Base64Url, Fill;
    if |b| < 3 {
      ShortMeans(b);
    } else {
      var q, rest, t := Quad(b[0], b[1], b[2]), b[3..], Base64Url(b[3..]);
      Base64UrlMeans(rest);
      QuadFirst(b);
      QuadMeans(b[0], b[1], b[2]);
      Value64Append(q, t);
      BigEndianAppend([b[0], b[1], b[2]], rest);
      SameWidth(|rest|);
      Spread(FromBigEndian([b[0], b[1], b[2]]), Pow256(|rest|), Fill(|rest|), FromBigEndian(rest));
    }
  }

  lemma QuadFirst(b: Bytes)
    requires |b| >= 3
    ensures Base64Url(b) == Quad(b[0], b[1], b[2]) + Base64Url(b[3..])
    ensures b == [b[0], b[1], b[2]] + b[3..] && Fill(|b|) == Fill(|b[3..]|)
    ensures (4 * |b| + 2) / 3 == 4 + (4 * |b[3..]| + 2) / 3
  {
    hide Base64Url, Quad, Fill;
    QuadText(b);
    ThreeMore(|b| - 3);
  }

  lemma QuadText(b: Bytes)
    requires |b| >= 3
    ensures Base64Url(b) == Quad(b[0], b[1], b[2]) + Base64Url(b[3..])
  {
    hide Quad, Symbol, SymbolValue, Base64UrlText;
  }

  lemma ThreeMore(n: nat)
    ensures Fill(n + 3) == Fill(n) && (4 * (n + 3) + 2) / 3 == 4 + (4 * n + 2) / 3
  {
  }

  lemma Spread(q: int, p: int, f: int, r: int)
    ensures q * (p * f) + r * f == (q * p + r) * f
  {
  }

  lemma ShortMeans(b: Bytes)
    requires |b| < 3
    ensures |Base64Url(b)| == (4 * |b| + 2) / 3
    ensures Value64(Base64Url(b)) == FromBigEndian(b) * Fill(|b|)
  {
    hide Symbol, SymbolValue, FromBigEndian, Value64;
    NothingCounts();
    if |b| == 1 {
      OneByteMeans(b[0]);
      assert b == [b[0]];
    } else if |b| == 2 {
      TwoBytesMean(b[0], b[1]);
      assert b == [b[0], b[1]];
    }
  }

  lemma OneByteMeans(x: Byte)
    ensures |Base64Url([x])| == 2 && Value64(Base64Url([x])) == FromBigEndian([x]) * 16
  {
    hide Symbol, SymbolValue, FromBigEndian, Value64;
    ThreeSymbols(x / 4, x % 4 * 16, 0);
    ThreeDigits(x, 0, 0);
  }

  lemma TwoBytesMean(x: Byte, y: Byte)
    ensures |Base64Url([x, y])| == 3 && Value64(Base64Url([x, y])) == FromBigEndian([x, y]) * 4
  {
    hide Symbol, SymbolValue, FromBigEndian, Value64;
    ThreeSymbols(x / 4, x % 4 * 16 + y / 16, y % 16 * 4);
    ThreeDigits(x, y, 0);
  }

  lemma NothingCounts()
    ensures Value64("") == 0 && FromBigEndian([]) == 0
  {
  }

  lemma Value64Snoc(s: string, v: int)
    requires Base64UrlText(s) && 0 <= v < 64
    ensures Base64UrlText(s + [Symbol(v)]) && Value64(s + [Symbol(v)]) == Value64(s) * 64 + v
  {
    hide Symbol, SymbolValue;
    assert (s + [Symbol(v)])[..|s|] == s;
  }

  lemma ThreeSymbols(u: int, v: int, w: int)
    requires 0 <= u < 64 && 0 <= v < 64 && 0 <= w < 64
    ensures Base64UrlText([Symbol(u), Symbol(v)]) && Value64([Symbol(u), Symbol(v)]) == u * 64 + v
    ensures Base64UrlText([Symbol(u), Symbol(v), Symbol(w)])
    ensures Value64([Symbol(u), Symbol(v), Symbol(w)]) == (u * 64 + v) * 64 + w
  {
    hide Symbol, SymbolValue, Value64;
    NothingCounts();
    Value64Snoc("", u);
    assert "" + [Symbol(u)] == [Symbol(u)];
    Value64Snoc([Symbol(u)], v);
    assert [Symbol(u)] + [Symbol(v)] == [Symbol(u), Symbol(v)];
    Value64Snoc([Symbol(u), Symbol(v)], w);
    assert [Symbol(u), Symbol(v)] + [Symbol(w)] == [Symbol(u), Symbol(v), Symbol(w)];
  }

  lemma BigEndianSnoc(b: Bytes, x: Byte)
    ensures FromBigEndian(b + [x]) == 256 * FromBigEndian(b) + x
  {
    assert (b + [x])[..|b|] == b;
  }

  lemma ThreeDigits(x: Byte, y: Byte, z: Byte)
    ensures FromBigEndian([x]) == x && FromBigEndian([x, y]) == 256 * x + y
    ensures FromBigEndian([x, y, z]) == 256 * (256 * x + y) + z
  {
    hide FromBigEndian;
    NothingCounts();
    BigEndianSnoc([], x);
    assert [] + [x] == [x];
    BigEndianSnoc([x], y);
    assert [x] + [y] == [x, y];
    BigEndianSnoc([x, y], z);
    assert [x, y] + [z] == [x, y, z];
  }

  lemma QuadMeans(x: Byte, y: Byte, z: Byte)
    ensures Value64(Quad(x, y, z)) == FromBigEndian([x, y, z])
  {
    hide Symbol, SymbolValue, Value64, FromBigEndian;
    var u, v, w := x / 4, x % 4 * 16 + y / 16, y % 16 * 4 + z / 64;
    ThreeSymbols(u, v, w);
    Value64Snoc([Symbol(u), Symbol(v), Symbol(w)], z % 64);
    assert Quad(x, y, z) == [Symbol(u), Symbol(v), Symbol(w)] + [Symbol(z % 64)];
    ThreeDigits(x, y, z);
  }

  lemma {:induction false} Value64Append(s: string, t: string)
    requires Base64UrlText(s) && Base64UrlText(t)
    ensures Base64UrlText(s + t) && Value64(s + t) == Value64(s) * Pow64(|t|) + Value64(t)
  {
    hide SymbolValue;
    if t == "" {
      assert s + t == s;
    } else {
      var n := |t| - 1;
      assert (s + t)[..|s + t| - 1] == s + t[..n];
      Value64Append(s, t[..n]);
      Carry(Value64(s), Pow64(n), Value64(t[..n]), 64);
    }
  }

  lemma Carry(s: int, p: int, t: int, base: int)
    ensures (s * p + t) * base == s * (base * p) + t * base
  {
  }

  lemma {:induction false} BigEndianAppend(a: Bytes, b: Bytes)
    ensures FromBigEndian(a + b) == FromBigEndian(a) * Pow256(|b|) + FromBigEndian(b)
  {
    if b == [] {
      assert a + b == a;
    } else {
      var n := |b| - 1;
      assert (a + b)[..|a + b| - 1] == a + b[..n];
      BigEndianAppend(a, b[..n]);
      Carry(FromBigEndian(a), Pow256(n), FromBigEndian(b[..n]), 256);
    }
  }

  /** The symbols of some bytes hold their bits and those that fill them up. */
  lemma {:induction false} SameWidth(n: nat)
    ensures Pow64((4 * n + 2) / 3) == Pow256(n) * Fill(n)
  {
    hide Pow64, Pow256;
    FirstPowers();
    if n >= 3 {
      SameWidth(n - 3);
      FourAndThree((4 * (n - 3) + 2) / 3, n - 3);
      assert (4 * n + 2) / 3 == (4 * (n - 3) + 2) / 3 + 4;
      Spread(Pow256(n - 3), 0x1000000, Fill(n), 0);
    }
  }

  lemma FirstPowers()
    ensures Pow64(0) == 1 && Pow64(2) == 4096 && Pow64(3) == 262144
    ensures Pow256(0) == 1 && Pow256(1) == 256 && Pow256(2) == 65536
  {
    assert Pow64(1) == 64;
  }

  lemma FourAndThree(k: nat, n: nat)
    ensures Pow64(k + 4) == 0x1000000 * Pow64(k) && Pow256(n + 3) == 0x1000000 * Pow256(n)
  {
    assert Pow64(k + 1) == 64 * Pow64(k) && Pow64(k + 2) == 64 * Pow64(k + 1) && Pow64(k + 3) == 64 * Pow64(k + 2);
    assert Pow256(n + 1) == 256 * Pow256(n) && Pow256(n + 2) == 256 * Pow256(n + 1);
  }
}
