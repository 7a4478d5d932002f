/** The AIDFIR2 chunked AES-256-GCM object format of the evidence repository. */
module EncryptedObjects {
  import opened Wrappers
  import opened Encodings

  /** AES-256-GCM under one key: (nonce, data, associated data). */
  datatype Aead = Aead(
    seal: (Bytes, Bytes, Bytes) -> Bytes,
    open: (Bytes, Bytes, Bytes) -> Option<Bytes>)

  const TAG: nat := 16

  /** A sealed text is sixteen bytes longer, opens to what was sealed, and nothing else opens. */
  ghost predicate Laws(a: Aead) {
    && (forall n, p, d :: |a.seal(n, p, d)| == |p| + TAG)
    && (forall n, p, d :: a.open(n, a.seal(n, p, d), d) == Some(p))
    && (forall n, c, d :: a.open(n, c, d).Some? ==> c == a.seal(n, a.open(n, c, d).value, d))
  }

  datatype SealError = ChunkSizeField | CounterOverflow | LengthField

  datatype OpenError =
    | HeaderInvalid | HeaderTruncated | TruncatedLength | TruncatedChunk
    | CounterTooLarge | InvalidTag | InvalidChunkSize | DigestMismatch

  /** The ASCII bytes of "AIDFIR2". */
  const MAGIC: Bytes := [65, 73, 68, 70, 73, 82, 50]

  const LIMIT: nat := 0x1_0000_0000

  function U32(n: nat): (b: Bytes)
    requires n < LIMIT
    ensures |b| == 4 && FromBigEndian(b) == n
  {
    Pow256Of4();
    BigEndianRoundTrip(n, 4);
    BigEndian(n, 4)
  }

  function ReadU32(b: Bytes): (n: nat)
    requires |b| == 4
    ensures n < LIMIT && U32(n) == b
  {
    Pow256Of4();
    FromBigEndianRoundTrip(b);
    FromBigEndian(b)
  }

  lemma ReadWritten(n: nat)
    requires n < LIMIT
    ensures ReadU32(U32(n)) == n
  {
  }

  function Nonce(prefix: Bytes, counter: nat): (b: Bytes)
    requires counter < LIMIT
  {
    prefix + U32(counter)
  }

  function AssociatedData(digest: string, counter: nat): (b: Bytes) { Utf8(digest + ":" + Decimal(counter)) }

  function Header(prefix: Bytes, chunk: nat): (b: Bytes)
    requires chunk < LIMIT
  {
    MAGIC + prefix + U32(chunk)
  }

  function Frame(a: Aead, digest: string, prefix: Bytes, counter: nat, part: Bytes): (b: Bytes)
    requires counter < LIMIT && |a.seal(Nonce(prefix, counter), part, AssociatedData(digest, counter))| < LIMIT
  {
    var sealed := a.seal(Nonce(prefix, counter), part, AssociatedData(digest, counter));
    U32(|sealed|) + sealed
  }

  /** What has been written, before the rest of an outcome. */
  function After<E>(done: Bytes, r: Result<Bytes, E>): (s: Result<Bytes, E>)
    ensures done == [] ==> s == r
  {
    if r.Ok? then
      assert done == [] ==> done + r.value == r.value;
      Ok(done + r.value)
    else r
  }

  // ---- _encrypt_v2 ----

  function SealFrames(
      a: Aead, digest: string, prefix: Bytes, chunk: nat, plain: Bytes, counter: nat): (r: Result<Bytes, SealError>)
    decreases |plain|
  {
    var n := if chunk <= |plain| then chunk else |plain|;
    if n == 0 then Ok([])
    else if counter >= LIMIT then Err(CounterOverflow)
    else if |a.seal(Nonce(prefix, counter), plain[..n], AssociatedData(digest, counter))| >= LIMIT then Err(LengthField)
    else
      match SealFrames(a, digest, prefix, chunk, plain[n..], counter + 1)
      case Err(e) => Err(e)
      case Ok(rest) => Ok(Frame(a, digest, prefix, counter, plain[..n]) + rest)
  }

  function Encrypt(a: Aead, digest: string, prefix: Bytes, chunk: int, plain: Bytes): (r: Result<Bytes, SealError>) {
    if !(0 <= chunk < LIMIT) then Err(ChunkSizeField)
    else
      match SealFrames(a, digest, prefix, chunk, plain, 0)
      case Err(e) => Err(e)
      case Ok(frames) => Ok(Header(prefix, chunk) + frames)
  }

  lemma SealStep(a: Aead, digest: string, prefix: Bytes, chunk: nat, plain: Bytes, n: nat, counter: nat, done: Bytes)
    requires n == (if chunk <= |plain| then chunk else |plain|) && n > 0 && counter < LIMIT
    requires |a.seal(Nonce(prefix, counter), plain[..n], AssociatedData(digest, counter))| < LIMIT
    ensures After(done, SealFrames(a, digest, prefix, chunk, plain, counter)) ==
      After(done + Frame(a, digest, prefix, counter, plain[..n]),
        SealFrames(a, digest, prefix, chunk, plain[n..], counter + 1))
  {
    hide Frame, Nonce, AssociatedData;
    var r := SealFrames(a, digest, prefix, chunk, plain[n..], counter + 1);
    var f := Frame(a, digest, prefix, counter, plain[..n]);
    if r.Ok? { assert done + (f + r.value) == done + f + r.value; }
  }

  lemma FrameBytes(a: Aead, digest: string, prefix: Bytes, counter: nat, part: Bytes)
    requires counter < LIMIT && |a.seal(Nonce(prefix, counter), part, AssociatedData(digest, counter))| < LIMIT
    ensures var sealed := a.seal(Nonce(prefix, counter), part, AssociatedData(digest, counter));
      Frame(a, digest, prefix, counter, part) == U32(|sealed|) + sealed
  {
  }

  /** Where the writing loop stops. */
  lemma SealRefuses(a: Aead, digest: string, prefix: Bytes, chunk: nat, plain: Bytes, n: nat, counter: nat)
    requires n == (if chunk <= |plain| then chunk else |plain|)
    ensures n == 0 ==> SealFrames(a, digest, prefix, chunk, plain, counter) == Ok([])
    ensures n > 0 && counter >= LIMIT ==> SealFrames(a, digest, prefix, chunk, plain, counter) == Err(CounterOverflow)
    ensures n > 0 && counter < LIMIT ==>
      var sealed := a.seal(Nonce(prefix, counter), plain[..n], AssociatedData(digest, counter));
      |sealed| >= LIMIT ==> SealFrames(a, digest, prefix, chunk, plain, counter) == Err(LengthField)
  {
    hide Nonce, AssociatedData;
  }

  method EncryptV2(a: Aead, digest: string, prefix: Bytes, chunk: int, plain: Bytes)
    returns (r: Result<Bytes, SealError>)
    ensures r == Encrypt(a, digest, prefix, chunk, plain)
  {
    hide SealFrames, Frame, Nonce, AssociatedData, U32;
    if !(0 <= chunk < LIMIT) { return Err(ChunkSizeField); }
    var out, counter, pos := Header(prefix, chunk), 0, 0;
    ghost var all := SealFrames(a, digest, prefix, chunk, plain, 0);
    ghost var done: Bytes := [];
    assert plain[0..] == plain;
    while true
      invariant 0 <= pos <= |plain| && out == Header(prefix, chunk) + done
      invariant all == After(done, SealFrames(a, digest, prefix, chunk, plain[pos..], counter))
      decreases |plain| - pos
    {
      var n := if chunk <= |plain| - pos then chunk else |plain| - pos;
      var part := plain[pos..pos + n];
      assert part == plain[pos..][..n] && plain[pos..][n..] == plain[pos + n..];
      SealRefuses(a, digest, prefix, chunk, plain[pos..], n, counter);
      if part == [] { break; }
      if counter >= LIMIT { return Err(CounterOverflow); }
      var sealed := a.seal(Nonce(prefix, counter), part, AssociatedData(digest, counter));
      if |sealed| >= LIMIT { return Err(LengthField); }
      SealStep(a, digest, prefix, chunk, plain[pos..], n, counter, done);
      ghost var frame := Frame(a, digest, prefix, counter, part);
      assert frame == U32(|sealed|) + sealed by { FrameBytes(a, digest, prefix, counter, part); }
      assert out + U32(|sealed|) + sealed == Header(prefix, chunk) + (done + frame);
      out := out + U32(|sealed|) + sealed;
      done := done + frame;
      counter, pos := counter + 1, pos + n;
    }
    assert done + [] == done;
    r := Ok(out);
  }

  // ---- _decrypt_v2_to ----

  function OpenFrames(
      a: Aead, digest: string, prefix: Bytes, chunk: nat, stream: Bytes, counter: nat): (r: Result<Bytes, OpenError>)
    decreases |stream|
  {
    if stream == [] then Ok([])
    else if |stream| < 4 then Err(TruncatedLength)
    else
      var length := ReadU32(stream[..4]);
      if |stream| - 4 < length then Err(TruncatedChunk)
      else if counter >= LIMIT then Err(CounterTooLarge)
      else
        match a.open(Nonce(prefix, counter), stream[4..4 + length], AssociatedData(digest, counter))
        case None => Err(InvalidTag)
        case Some(part) =>
          if |part| > chunk then Err(InvalidChunkSize)
          else
            match OpenFrames(a, digest, prefix, chunk, stream[4 + length..], counter + 1)
            case Err(e) => Err(e)
            case Ok(rest) => Ok(part + rest)
  }

  function Decrypt(a: Aead, sha256: Bytes -> string, stream: Bytes, digest: string): (r: Result<Bytes, OpenError>) {
    if !(MAGIC <= stream) then Err(HeaderInvalid)
    else if |stream| < 19 then Err(HeaderTruncated)
    else
      match OpenFrames(a, digest, stream[7..15], ReadU32(stream[15..19]), stream[19..], 0)
      case Err(e) => Err(e)
      case Ok(out) => if sha256(out) != digest then Err(DigestMismatch) else Ok(out)
  }

  /** Where the reading loop stops. */
  lemma OpenRefuses(a: Aead, digest: string, prefix: Bytes, chunk: nat, stream: Bytes, counter: nat)
    ensures stream == [] ==> OpenFrames(a, digest, prefix, chunk, stream, counter) == Ok([])
    ensures 0 < |stream| < 4 ==> OpenFrames(a, digest, prefix, chunk, stream, counter) == Err(TruncatedLength)
    ensures |stream| >= 4 && |stream| - 4 < ReadU32(stream[..4]) ==>
      OpenFrames(a, digest, prefix, chunk, stream, counter) == Err(TruncatedChunk)
    ensures |stream| >= 4 && |stream| - 4 >= ReadU32(stream[..4]) && counter >= LIMIT ==>
      OpenFrames(a, digest, prefix, chunk, stream, counter) == Err(CounterTooLarge)
  {
    hide ReadU32;
  }

  lemma OpenStep(
      a: Aead, digest: string, prefix: Bytes, chunk: nat, stream: Bytes, pos: nat, length: nat, counter: nat,
      done: Bytes)
    requires pos + 4 + length <= |stream| && length == ReadU32(stream[pos..pos + 4]) && counter < LIMIT
    ensures var part :=
      a.open(Nonce(prefix, counter), stream[pos + 4..pos + 4 + length], AssociatedData(digest, counter));
      After(done, OpenFrames(a, digest, prefix, chunk, stream[pos..], counter)) ==
      if part == None then Err(InvalidTag)
      else if |part.value| > chunk then Err(InvalidChunkSize)
      else After(done + part.value, OpenFrames(a, digest, prefix, chunk, stream[pos + 4 + length..], counter + 1))
  {
    hide ReadU32, Nonce, AssociatedData;
    var rest := stream[pos..];
    assert rest[..4] == stream[pos..pos + 4];
    assert rest[4..4 + length] == stream[pos + 4..pos + 4 + length];
    assert rest[4 + length..] == stream[pos + 4 + length..];
    var part := a.open(Nonce(prefix, counter), stream[pos + 4..pos + 4 + length], AssociatedData(digest, counter));
    var later := OpenFrames(a, digest, prefix, chunk, stream[pos + 4 + length..], counter + 1);
    if part.Some? && later.Ok? { assert done + (part.value + later.value) == done + part.value + later.value; }
  }

  method DecryptV2(a: Aead, sha256: Bytes -> string, stream: Bytes, digest: string)
    returns (r: Result<Bytes, OpenError>)
    ensures r == Decrypt(a, sha256, stream, digest)
  {
    hide OpenFrames, ReadU32, Nonce, AssociatedData;
    if |stream| < 7 || stream[..7] != MAGIC { return Err(HeaderInvalid); }
    assert MAGIC <= stream;
    if |stream| < 19 { return Err(HeaderTruncated); }
    var prefix, chunk := stream[7..15], ReadU32(stream[15..19]);
    var out, counter, pos := [], 0, 19;
    ghost var all := OpenFrames(a, digest, prefix, chunk, stream[19..], 0);
    while pos < |stream|
      invariant 19 <= pos <= |stream|
      invariant all == After(out, OpenFrames(a, digest, prefix, chunk, stream[pos..], counter))
    {
      OpenRefuses(a, digest, prefix, chunk, stream[pos..], counter);
      if |stream| - pos < 4 { return Err(TruncatedLength); }
      assert stream[pos..][..4] == stream[pos..pos + 4];
      var length := ReadU32(stream[pos..pos + 4]);
      if |stream| - pos - 4 < length { return Err(TruncatedChunk); }
      if counter >= LIMIT { return Err(CounterTooLarge); }
      OpenStep(a, digest, prefix, chunk, stream, pos, length, counter, out);
      var part := a.open(Nonce(prefix, counter), stream[pos + 4..pos + 4 + length], AssociatedData(digest, counter));
      if part == None { return Err(InvalidTag); }
      if |part.value| > chunk { return Err(InvalidChunkSize); }
      out := out + part.value;
      counter, pos := counter + 1, pos + 4 + length;
    }
    assert stream[pos..] == [] && out + [] == out;
    OpenRefuses(a, digest, prefix, chunk, [], counter);
    if sha256(out) != digest { return Err(DigestMismatch); }
    r := Ok(out);
  }

  // ---- What a well-made object is ----

  /** The frames of the given parts, numbered from `counter`. */
  function Sealed(a: Aead, digest: string, prefix: Bytes, parts: seq<Bytes>, counter: nat): (b: Bytes)
    requires Laws(a) && counter + |parts| <= LIMIT && forall p :: p in parts ==> |p| + TAG < LIMIT
  {
    if parts == [] then []
    else Frame(a, digest, prefix, counter, parts[0]) + Sealed(a, digest, prefix, parts[1..], counter + 1)
  }

  function Concat(parts: seq<Bytes>): (b: Bytes) {
    if parts == [] then [] else parts[0] + Concat(parts[1..])
  }

  predicate PartsFit(chunk: nat, parts: seq<Bytes>, counter: nat) {
    counter + |parts| <= LIMIT && forall p :: p in parts ==> |p| <= chunk && |p| + TAG < LIMIT
  }

  lemma {:induction false} OpenSealed(
      a: Aead, digest: string, prefix: Bytes, chunk: nat, parts: seq<Bytes>, counter: nat)
    requires Laws(a) && PartsFit(chunk, parts, counter)
    ensures OpenFrames(a, digest, prefix, chunk, Sealed(a, digest, prefix, parts, counter), counter) ==
      Ok(Concat(parts))
    decreases |parts|
  {
    hide OpenFrames, Frame;
    if parts == [] {
      OpenRefuses(a, digest, prefix, chunk, [], counter);
    } else {
      OpenSealed(a, digest, prefix, chunk, parts[1..], counter + 1);
      var rest := Sealed(a, digest, prefix, parts[1..], counter + 1);
      FrameOpens(a, digest, prefix, chunk, parts[0], rest, counter);
    }
  }

  /** A frame at the front opens to its part. */
  lemma FrameOpens(a: Aead, digest: string, prefix: Bytes, chunk: nat, part: Bytes, rest: Bytes, counter: nat)
    requires Laws(a) && counter < LIMIT && |part| <= chunk && |part| + TAG < LIMIT
    ensures |a.seal(Nonce(prefix, counter), part, AssociatedData(digest, counter))| < LIMIT
    ensures OpenFrames(a, digest, prefix, chunk, Frame(a, digest, prefix, counter, part) + rest, counter) ==
      After(part, OpenFrames(a, digest, prefix, chunk, rest, counter + 1))
  {
    hide Nonce, AssociatedData, U32, ReadU32;
    var sealed := a.seal(Nonce(prefix, counter), part, AssociatedData(digest, counter));
    var stream := Frame(a, digest, prefix, counter, part) + rest;
    FrameBytes(a, digest, prefix, counter, part);
    ReadWritten(|sealed|);
    assert stream[..4] == U32(|sealed|) && stream[4..4 + |sealed|] == sealed && stream[4 + |sealed|..] == rest;
  }

  lemma FirstFrame(a: Aead, digest: string, prefix: Bytes, chunk: nat, stream: Bytes, counter: nat)
    returns (part: Bytes, rest: Bytes)
    requires Laws(a) && stream != [] && OpenFrames(a, digest, prefix, chunk, stream, counter).Ok?
    ensures counter < LIMIT && |part| <= chunk && |part| + TAG < LIMIT && |rest| < |stream|
    ensures |a.seal(Nonce(prefix, counter), part, AssociatedData(digest, counter))| == |part| + TAG
    ensures stream == Frame(a, digest, prefix, counter, part) + rest
    ensures OpenFrames(a, digest, prefix, chunk, rest, counter + 1).Ok?
    ensures OpenFrames(a, digest, prefix, chunk, stream, counter).value ==
      part + OpenFrames(a, digest, prefix, chunk, rest, counter + 1).value
  {
    hide Nonce, AssociatedData;
    var length := ReadU32(stream[..4]);
    part := a.open(Nonce(prefix, counter), stream[4..4 + length], AssociatedData(digest, counter)).value;
    rest := stream[4 + length..];
    assert stream == stream[..4] + stream[4..4 + length] + stream[4 + length..];
  }

  lemma {:induction false} OpenedWasSealed(
      a: Aead, digest: string, prefix: Bytes, chunk: nat, stream: Bytes, counter: nat) returns (parts: seq<Bytes>)
    requires Laws(a) && counter <= LIMIT && OpenFrames(a, digest, prefix, chunk, stream, counter).Ok?
    ensures PartsFit(chunk, parts, counter) && stream == Sealed(a, digest, prefix, parts, counter)
    ensures Concat(parts) == OpenFrames(a, digest, prefix, chunk, stream, counter).value
    decreases |stream|
  {
    hide Frame, Laws, OpenFrames, ReadU32;
    parts := [];
    if stream == [] {
      OpenRefuses(a, digest, prefix, chunk, stream, counter);
    } else {
      var part, rest := FirstFrame(a, digest, prefix, chunk, stream, counter);
      var later := OpenedWasSealed(a, digest, prefix, chunk, rest, counter + 1);
      parts := [part] + later;
      assert parts[1..] == later;
    }
  }

  /** `stream` is a header followed by correctly numbered, sealed parts of `out`, none longer
      than the header's chunk size. */
  ghost predicate WellMade(a: Aead, digest: string, stream: Bytes, out: Bytes)
    requires Laws(a)
  {
    exists prefix: Bytes, chunk: nat, parts: seq<Bytes> ::
      |prefix| == 8 && chunk < LIMIT && PartsFit(chunk, parts, 0) && Concat(parts) == out &&
      stream == Header(prefix, chunk) + Sealed(a, digest, prefix, parts, 0)
  }

  /** The numeral that str() writes for `n`. */
  ghost predicate IsNumeral(s: string, n: nat) {
    s != "" && AllDigits(s) && Numeral(s) == n && (|s| > 1 ==> s[0] != '0')
  }

  /** A part sealed under the prefix and the big-endian counter as nonce, for the digest, a colon and
      the counter in decimal. */
  ghost predicate SealedPart(a: Aead, digest: string, prefix: Bytes, counter: nat, part: Bytes, sealed: Bytes) {
    exists nonce: Bytes, mark: string ::
      && |nonce| == 12 && nonce[..8] == prefix && FromBigEndian(nonce[8..]) == counter
      && IsNumeral(mark, counter) && sealed == a.seal(nonce, part, Utf8(digest + ":" + mark))
  }

  /** Byte by byte: the length of what was sealed, big-endian in four bytes, and then that. */
  lemma FrameLayout(a: Aead, digest: string, prefix: Bytes, counter: nat, part: Bytes)
    requires Laws(a) && |prefix| == 8 && counter < LIMIT && |part| + TAG < LIMIT
    ensures var f := Frame(a, digest, prefix, counter, part);
      |f| >= 4 && FromBigEndian(f[..4]) == |f| - 4 && SealedPart(a, digest, prefix, counter, part, f[4..])
  {
    hide U32, Laws;
    var nonce, mark := Nonce(prefix, counter), Decimal(counter);
    var sealed := a.seal(nonce, part, AssociatedData(digest, counter));
    assert |sealed| == |part| + TAG by { SealedLength(a, nonce, part, AssociatedData(digest, counter)); }
    var f := Frame(a, digest, prefix, counter, part);
    assert f[..4] == U32(|sealed|) && f[4..] == sealed;
    DecimalRoundTrip(counter);
    assert nonce[..8] == prefix && nonce[8..] == U32(counter);
    assert IsNumeral(mark, counter);
  }

  lemma SealedLength(a: Aead, nonce: Bytes, part: Bytes, mark: Bytes)
    requires Laws(a)
    ensures |a.seal(nonce, part, mark)| == |part| + TAG
  {
  }

  /** Byte by byte: "AIDFIR2", the nonce prefix, and the chunk size in four bytes. */
  lemma HeaderLayout(prefix: Bytes, chunk: nat)
    requires |prefix| == 8 && chunk < LIMIT
    ensures var b := Header(prefix, chunk);
      |b| == 19 && b[..7] == Utf8("AIDFIR2") && b[7..15] == prefix && FromBigEndian(b[15..]) == chunk
  {
    hide U32, Utf8;
    var b := Header(prefix, chunk);
    Utf8Ascii("AIDFIR2");
    assert b[..7] == MAGIC && b[7..15] == prefix && b[15..] == U32(chunk);
    assert Utf8("AIDFIR2") == MAGIC;
  }

  /** The decryptor accepts exactly the well-made objects whose contents have the digest.
      Cutting, reordering or replacing frames can only lead to another of these. */
  lemma DecryptsIff(a: Aead, sha256: Bytes -> string, stream: Bytes, digest: string, out: Bytes)
    requires Laws(a)
    ensures Decrypt(a, sha256, stream, digest) == Ok(out) <==>
      sha256(out) == digest && WellMade(a, digest, stream, out)
  {
    if Decrypt(a, sha256, stream, digest) == Ok(out) { DecryptedIsWellMade(a, sha256, stream, digest, out); }
    if sha256(out) == digest && WellMade(a, digest, stream, out) {
      hide Decrypt, Sealed, Laws;
      var prefix: Bytes, chunk: nat, parts: seq<Bytes> :|
        |prefix| == 8 && chunk < LIMIT && PartsFit(chunk, parts, 0) && Concat(parts) == out &&
        stream == Header(prefix, chunk) + Sealed(a, digest, prefix, parts, 0);
      DecryptSealed(a, sha256, digest, prefix, chunk, parts);
    }
  }

  lemma DecryptedIsWellMade(a: Aead, sha256: Bytes -> string, stream: Bytes, digest: string, out: Bytes)
    requires Laws(a) && Decrypt(a, sha256, stream, digest) == Ok(out)
    ensures sha256(out) == digest && WellMade(a, digest, stream, out)
  {
    hide Sealed, Laws, OpenFrames, Concat;
    var prefix, chunk := stream[7..15], ReadU32(stream[15..19]);
    var parts := OpenedWasSealed(a, digest, prefix, chunk, stream[19..], 0);
    assert stream == MAGIC + stream[7..15] + stream[15..19] + stream[19..];
    assert stream == Header(prefix, chunk) + Sealed(a, digest, prefix, parts, 0);
  }

  lemma DecryptSealed(a: Aead, sha256: Bytes -> string, digest: string, prefix: Bytes, chunk: nat, parts: seq<Bytes>)
    requires Laws(a) && |prefix| == 8 && chunk < LIMIT && PartsFit(chunk, parts, 0)
    ensures Decrypt(a, sha256, Header(prefix, chunk) + Sealed(a, digest, prefix, parts, 0), digest) ==
      if sha256(Concat(parts)) == digest then Ok(Concat(parts)) else Err(DigestMismatch)
  {
    hide OpenFrames, Sealed, ReadU32, Header;
    var frames := Sealed(a, digest, prefix, parts, 0);
    var stream := Header(prefix, chunk) + frames;
    OpenSealed(a, digest, prefix, chunk, parts, 0);
    HeaderReads(prefix, chunk, frames);
    assert MAGIC <= stream;
  }

  lemma HeaderReads(prefix: Bytes, chunk: nat, frames: Bytes)
    requires |prefix| == 8 && chunk < LIMIT
    ensures var stream := Header(prefix, chunk) + frames;
      |stream| >= 19 && MAGIC <= stream && stream[7..15] == prefix && stream[15..19] == U32(chunk) &&
      stream[19..] == frames && ReadU32(stream[15..19]) == chunk
  {
    hide U32, ReadU32;
    var stream := Header(prefix, chunk) + frames;
    ReadWritten(chunk);
    assert stream[..7] == MAGIC && stream[7..15] == prefix && stream[15..19] == U32(chunk) && stream[19..] == frames;
    assert MAGIC <= stream;
  }

  // ---- Round trip ----

  /** Consecutive pieces of `chunk` bytes, the last one shorter when it must be. */
  function Pieces(chunk: nat, plain: Bytes): (parts: seq<Bytes>)
    requires chunk > 0
    decreases |plain|
  {
    if plain == [] then []
    else if |plain| <= chunk then [plain]
    else [plain[..chunk]] + Pieces(chunk, plain[chunk..])
  }

  lemma {:induction false} PiecesConcat(chunk: nat, plain: Bytes)
    requires chunk > 0
    ensures Concat(Pieces(chunk, plain)) == plain
    ensures forall p :: p in Pieces(chunk, plain) ==> 0 < |p| <= chunk && |p| <= |plain|
    decreases |plain|
  {
    if |plain| > chunk {
      PiecesConcat(chunk, plain[chunk..]);
      assert Pieces(chunk, plain)[1..] == Pieces(chunk, plain[chunk..]);
      assert plain == plain[..chunk] + plain[chunk..];
    } else if plain != [] {
      assert Concat([plain]) == plain + Concat([plain][1..]);
    }
  }

  lemma {:induction false} SealFramesSeals(
      a: Aead, digest: string, prefix: Bytes, chunk: nat, plain: Bytes, counter: nat)
    requires Laws(a) && chunk > 0 && counter <= LIMIT
    ensures SealFrames(a, digest, prefix, chunk, plain, counter).Ok? <==> PartsFit(chunk, Pieces(chunk, plain), counter)
    ensures PartsFit(chunk, Pieces(chunk, plain), counter) ==>
      SealFrames(a, digest, prefix, chunk, plain, counter) ==
      Ok(Sealed(a, digest, prefix, Pieces(chunk, plain), counter))
    decreases |plain|
  {
    hide Nonce, AssociatedData, Frame;
    var parts := Pieces(chunk, plain);
    if plain != [] {
      var n := if chunk <= |plain| then chunk else |plain|;
      assert parts[0] == plain[..n];
      assert parts[1..] == Pieces(chunk, plain[n..]);
      assert parts == [parts[0]] + parts[1..];
      if counter < LIMIT { SealFramesSeals(a, digest, prefix, chunk, plain[n..], counter + 1); }
    }
  }

  /** Encryption with a positive chunk size succeeds exactly when the frames can be counted and
      measured in 32 bits, and what it writes decrypts to what was read. */
  lemma EncryptDecrypt(a: Aead, sha256: Bytes -> string, prefix: Bytes, chunk: nat, plain: Bytes)
    requires Laws(a) && |prefix| == 8 && chunk > 0
    ensures Encrypt(a, sha256(plain), prefix, chunk, plain).Ok? <==>
      chunk < LIMIT && PartsFit(chunk, Pieces(chunk, plain), 0)
    ensures Encrypt(a, sha256(plain), prefix, chunk, plain).Ok? ==>
      Decrypt(a, sha256, Encrypt(a, sha256(plain), prefix, chunk, plain).value, sha256(plain)) == Ok(plain)
  {
    var digest := sha256(plain);
    SealFramesSeals(a, digest, prefix, chunk, plain, 0);
    PiecesConcat(chunk, plain);
    if chunk < LIMIT && PartsFit(chunk, Pieces(chunk, plain), 0) {
      DecryptSealed(a, sha256, digest, prefix, chunk, Pieces(chunk, plain));
    }
  }

  /** Chunk size zero writes an empty object: it decrypts only if the empty file has the digest. */
  lemma ZeroChunkLosesData(a: Aead, sha256: Bytes -> string, prefix: Bytes, plain: Bytes)
    requires Laws(a) && |prefix| == 8
    ensures Encrypt(a, sha256(plain), prefix, 0, plain).Ok?
    ensures Decrypt(a, sha256, Encrypt(a, sha256(plain), prefix, 0, plain).value, sha256(plain)) ==
      if sha256([]) == sha256(plain) then Ok([]) else Err(DigestMismatch)
  {
    DecryptSealed(a, sha256, sha256(plain), prefix, 0, []);
  }

  lemma NoncesDistinct(prefix: Bytes, i: nat, j: nat)
    requires i < LIMIT && j < LIMIT && i != j
    ensures Nonce(prefix, i) != Nonce(prefix, j)
  {
    if Nonce(prefix, i) == Nonce(prefix, j) {
      SplitAtLength(prefix, prefix, U32(i), U32(j));
    }
  }

  /** One use of the key: what is sealed, under which nonce and associated data. */
  datatype Seal = Seal(nonce: Bytes, part: Bytes, data: Bytes)

  /** The uses of the key while the frames of `plain` are written. */
  function Seals(digest: string, prefix: Bytes, chunk: nat, plain: Bytes, counter: nat): (r: seq<Seal>)
    decreases |plain|
  {
    var n := if chunk <= |plain| then chunk else |plain|;
    if n == 0 || counter >= LIMIT then []
    else
      [Seal(Nonce(prefix, counter), plain[..n], AssociatedData(digest, counter))] +
      Seals(digest, prefix, chunk, plain[n..], counter + 1)
  }

  /** The length-prefixed results of those uses. */
  function Framed(a: Aead, seals: seq<Seal>): (b: Bytes)
    requires forall s :: s in seals ==> |a.seal(s.nonce, s.part, s.data)| < LIMIT
  {
    if seals == [] then []
    else
      var sealed := a.seal(seals[0].nonce, seals[0].part, seals[0].data);
      U32(|sealed|) + sealed + Framed(a, seals[1..])
  }

  lemma {:induction false} FramesAreSeals(
      a: Aead, digest: string, prefix: Bytes, chunk: nat, plain: Bytes, counter: nat)
    requires SealFrames(a, digest, prefix, chunk, plain, counter).Ok?
    ensures var seals := Seals(digest, prefix, chunk, plain, counter);
      (forall s :: s in seals ==> |a.seal(s.nonce, s.part, s.data)| < LIMIT) &&
      SealFrames(a, digest, prefix, chunk, plain, counter).value == Framed(a, seals)
    decreases |plain|
  {
    hide Nonce, AssociatedData, U32;
    var n := if chunk <= |plain| then chunk else |plain|;
    if n > 0 {
      FramesAreSeals(a, digest, prefix, chunk, plain[n..], counter + 1);
      var seals := Seals(digest, prefix, chunk, plain, counter);
      assert seals[1..] == Seals(digest, prefix, chunk, plain[n..], counter + 1);
      FrameBytes(a, digest, prefix, counter, plain[..n]);
    }
  }

  lemma {:induction false} SealNonces(digest: string, prefix: Bytes, chunk: nat, plain: Bytes, counter: nat)
    requires counter <= LIMIT
    ensures var seals := Seals(digest, prefix, chunk, plain, counter);
      counter + |seals| <= LIMIT && forall i :: 0 <= i < |seals| ==> seals[i].nonce == Nonce(prefix, counter + i)
    decreases |plain|
  {
    hide Nonce, AssociatedData;
    var n := if chunk <= |plain| then chunk else |plain|;
    if n > 0 && counter < LIMIT { SealNonces(digest, prefix, chunk, plain[n..], counter + 1); }
  }

  /** An object that is written consists of the header and the results of sealing calls, no two of
      them under one nonce. */
  lemma NoNonceTwice(a: Aead, digest: string, prefix: Bytes, chunk: nat, plain: Bytes)
    requires Encrypt(a, digest, prefix, chunk, plain).Ok?
    ensures var seals := Seals(digest, prefix, chunk, plain, 0);
      (forall s :: s in seals ==> |a.seal(s.nonce, s.part, s.data)| < LIMIT) &&
      Encrypt(a, digest, prefix, chunk, plain).value == Header(prefix, chunk) + Framed(a, seals) &&
      forall i, j :: 0 <= i < j < |seals| ==> seals[i].nonce != seals[j].nonce
  {
    hide SealFrames, Seals, Framed, Nonce, Header;
    FramesAreSeals(a, digest, prefix, chunk, plain, 0);
    SealNonces(digest, prefix, chunk, plain, 0);
    var seals := Seals(digest, prefix, chunk, plain, 0);
    forall i, j | 0 <= i < j < |seals| ensures seals[i].nonce != seals[j].nonce { NoncesDistinct(prefix, i, j); }
  }

  // ---- Tampering ----

  lemma {:induction false} ConcatLength(parts: seq<Bytes>, k: nat)
    requires k <= |parts|
    ensures Concat(parts) == Concat(parts[..k]) + Concat(parts[k..])
  {
    if k > 0 {
      ConcatLength(parts[1..], k - 1);
      assert parts[..k] == [parts[0]] + parts[1..][..k - 1];
      assert parts[k..] == parts[1..][k - 1..];
    } else {
      assert parts[0..] == parts;
    }
  }

  /** An object cut at a frame boundary is rejected by its digest, unless the part that is left
      collides with the whole. */
  lemma CutObjectRejected(a: Aead, sha256: Bytes -> string, prefix: Bytes, chunk: nat, plain: Bytes, k: nat)
    requires Laws(a) && |prefix| == 8 && 0 < chunk < LIMIT && PartsFit(chunk, Pieces(chunk, plain), 0)
    requires k < |Pieces(chunk, plain)|
    ensures var left := Concat(Pieces(chunk, plain)[..k]);
      left != plain && left <= plain &&
      Decrypt(a, sha256, Header(prefix, chunk) + Sealed(a, sha256(plain), prefix, Pieces(chunk, plain)[..k], 0),
        sha256(plain)) ==
        if sha256(left) == sha256(plain) then Ok(left) else Err(DigestMismatch)
  {
    var parts := Pieces(chunk, plain);
    PiecesConcat(chunk, plain);
    ConcatLength(parts, k);
    assert parts[k] in parts && parts[k..][0] == parts[k];
    DecryptSealed(a, sha256, sha256(plain), prefix, chunk, parts[..k]);
  }
}
