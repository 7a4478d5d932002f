/** The AIDFIR15E1 envelope: a wrapped data key, then frames with their own nonces. */
module KmsEnvelope {
  import opened Wrappers
  import opened Encodings
  import E = EncryptedObjects

  /** The ASCII bytes of "AIDFIR15E1" and a line feed. */
  const MAGIC: Bytes := [65, 73, 68, 70, 73, 82, 49, 53, 69, 49, 10]

  const CHUNK: nat := 4 * 1024 * 1024

  /** The envelope header: the fields that decryption reads, and all the others as one. */
  datatype Header = Header(wrapped: Bytes, plaintextSha256: string, rest: string)

  /** json.dumps and json.loads of headers, and the key-encryption key. */
  datatype Services = Services(
    dump: Header -> Bytes, load: Bytes -> Option<Header>,
    wrap: Bytes -> Bytes, unwrap: Bytes -> Option<Bytes>,
    aes: Bytes -> E.Aead, sha256: Bytes -> string)

  /** Headers and data keys are read back as they were written; encryption is authenticated. */
  ghost predicate Laws(v: Services) {
    && (forall h :: v.load(v.dump(h)) == Some(h))
    && (forall k :: v.unwrap(v.wrap(k)) == Some(k))
    && (forall k :: E.Laws(v.aes(k)))
  }

  datatype Error =
    | NotEnvelope | ShortLength | BadHeader | BadKey | InvalidTag | IndexOverflow | LengthField | DigestMismatch

  const INDEX_LIMIT: nat := Pow256(8)

  function AssociatedData(id: string, index: nat): (b: Bytes)
    requires index < INDEX_LIMIT
  {
    Utf8(id) + BigEndian(index, 8)
  }

  function Least(m: nat, n: nat): (r: nat) { if m <= n then m else n }

  function Cons(part: Bytes, r: Result<Bytes, Error>): (s: Result<Bytes, Error>) {
    if r.Ok? then Ok(part + r.value) else r
  }

  // ---- encrypt_file ----

  function SealFrames(a: E.Aead, id: string, nonces: nat -> Bytes, plain: Bytes, index: nat): (r: Result<Bytes, Error>)
    decreases |plain|
  {
    var n := Least(CHUNK, |plain|);
    if n == 0 then Ok([])
    else if index >= INDEX_LIMIT then Err(IndexOverflow)
    else
      var ct := a.seal(nonces(index), plain[..n], AssociatedData(id, index));
      if |ct| >= E.LIMIT then Err(LengthField)
      else Cons(E.U32(|ct|) + nonces(index) + ct, SealFrames(a, id, nonces, plain[n..], index + 1))
  }

  function Encrypt(
      v: Services, dek: Bytes, nonces: nat -> Bytes, extra: string, plain: Bytes): (r: Result<Bytes, Error>)
  {
    var id := v.sha256(plain);
    var hb := v.dump(Header(v.wrap(dek), id, extra));
    if |hb| >= E.LIMIT then Err(LengthField)
    else Cons(MAGIC + E.U32(|hb|) + hb, SealFrames(v.aes(dek), id, nonces, plain, 0))
  }

  /** Byte by byte: each frame is the length of what was sealed in four bytes, the nonce, and what was
      sealed under it, for the file's digest and the frame's index in eight bytes. */
  lemma FrameLayout(a: E.Aead, id: string, nonces: nat -> Bytes, plain: Bytes, index: nat)
    returns (mark: Bytes, sealed: Bytes, rest: Bytes)
    requires plain != [] && SealFrames(a, id, nonces, plain, index).Ok? && |nonces(index)| == 12
    ensures var s, n := SealFrames(a, id, nonces, plain, index).value, if |plain| < 4194304 then |plain| else 4194304;
      && |mark| == 8 && FromBigEndian(mark) == index && sealed == a.seal(nonces(index), plain[..n], Utf8(id) + mark)
      && |s| == 16 + |sealed| + |rest| && FromBigEndian(s[..4]) == |sealed| && s[4..16] == nonces(index)
      && s[16..16 + |sealed|] == sealed && s[16 + |sealed|..] == rest
      && SealFrames(a, id, nonces, plain[n..], index + 1) == Ok(rest)
  {
    hide E.U32;
    var n := Least(CHUNK, |plain|);
    mark := BigEndian(index, 8);
    BigEndianRoundTrip(index, 8);
    sealed := a.seal(nonces(index), plain[..n], AssociatedData(id, index));
    rest := SealFrames(a, id, nonces, plain[n..], index + 1).value;
    var s := SealFrames(a, id, nonces, plain, index).value;
    assert s == E.U32(|sealed|) + nonces(index) + sealed + rest;
    assert s[..4] == E.U32(|sealed|) && s[4..16] == nonces(index);
    assert s[16..16 + |sealed|] == sealed && s[16 + |sealed|..] == rest;
  }

  lemma MagicText()
    ensures Utf8("AIDFIR15E1\n") == MAGIC
  {
    hide Utf8;
    Utf8Ascii("AIDFIR15E1\n");
  }

  /** Byte by byte: "AIDFIR15E1" and a line feed, the length of the header in four bytes, the header,
      and the frames. */
  lemma EnvelopeLayout(v: Services, dek: Bytes, nonces: nat -> Bytes, extra: string, plain: Bytes)
    requires Encrypt(v, dek, nonces, extra, plain).Ok?
    ensures var s := Encrypt(v, dek, nonces, extra, plain).value;
      var header := v.dump(Header(v.wrap(dek), v.sha256(plain), extra));
      && |s| >= 15 + |header| && s[..11] == Utf8("AIDFIR15E1\n") && FromBigEndian(s[11..15]) == |header|
      && s[15..15 + |header|] == header
      && SealFrames(v.aes(dek), v.sha256(plain), nonces, plain, 0) == Ok(s[15 + |header|..])
  {
    hide E.U32, SealFrames, Utf8;
    var header := v.dump(Header(v.wrap(dek), v.sha256(plain), extra));
    var frames := SealFrames(v.aes(dek), v.sha256(plain), nonces, plain, 0).value;
    var s := Encrypt(v, dek, nonces, extra, plain).value;
    assert s == MAGIC + E.U32(|header|) + header + frames;
    MagicText();
    assert s[..11] == MAGIC && s[11..15] == E.U32(|header|) && s[15 + |header|..] == frames;
  }

  lemma SealStep(a: E.Aead, id: string, nonces: nat -> Bytes, plain: Bytes, index: nat, done: Bytes)
    requires plain != [] && index < INDEX_LIMIT
    requires |a.seal(nonces(index), plain[..Least(CHUNK, |plain|)], AssociatedData(id, index))| < E.LIMIT
    ensures var n := Least(CHUNK, |plain|);
      var ct := a.seal(nonces(index), plain[..n], AssociatedData(id, index));
      Cons(done, SealFrames(a, id, nonces, plain, index)) ==
      Cons(done + E.U32(|ct|) + nonces(index) + ct, SealFrames(a, id, nonces, plain[n..], index + 1))
  {
    hide AssociatedData, E.U32;
    var n := Least(CHUNK, |plain|);
    var ct := a.seal(nonces(index), plain[..n], AssociatedData(id, index));
    ConsCons(done, E.U32(|ct|) + nonces(index) + ct, SealFrames(a, id, nonces, plain[n..], index + 1));
    assert done + (E.U32(|ct|) + nonces(index) + ct) == done + E.U32(|ct|) + nonces(index) + ct;
  }

  /** Where the writing loop stops. */
  lemma SealRefuses(a: E.Aead, id: string, nonces: nat -> Bytes, plain: Bytes, index: nat)
    ensures plain == [] ==> SealFrames(a, id, nonces, plain, index) == Ok([])
    ensures plain != [] && index >= INDEX_LIMIT ==> SealFrames(a, id, nonces, plain, index) == Err(IndexOverflow)
    ensures var n := Least(CHUNK, |plain|);
      plain != [] && index < INDEX_LIMIT &&
        |a.seal(nonces(index), plain[..n], AssociatedData(id, index))| >= E.LIMIT ==>
      SealFrames(a, id, nonces, plain, index) == Err(LengthField)
  {
    hide AssociatedData;
  }

  method EncryptFile(v: Services, dek: Bytes, nonces: nat -> Bytes, extra: string, plain: Bytes)
    returns (r: Result<Bytes, Error>)
    ensures r == Encrypt(v, dek, nonces, extra, plain)
  {
    hide AssociatedData, E.U32, SealFrames;
    var wrapped, id := v.wrap(dek), v.sha256(plain);
    var hb := v.dump(Header(wrapped, id, extra));
    var a := v.aes(dek);
    if |hb| >= E.LIMIT { return Err(LengthField); }
    var out := MAGIC + E.U32(|hb|) + hb;
    var index, pos := 0, 0;
    ghost var all := Cons(out, SealFrames(a, id, nonces, plain, 0));
    assert plain[0..] == plain;
    while true
      invariant 0 <= pos <= |plain|
      invariant all == Cons(out, SealFrames(a, id, nonces, plain[pos..], index))
      decreases |plain| - pos
    {
      var data := plain[pos..pos + Least(CHUNK, |plain| - pos)];
      SealRefuses(a, id, nonces, plain[pos..], index);
      if data == [] { break; }
      assert data == plain[pos..][..Least(CHUNK, |plain[pos..]|)];
      assert plain[pos..][|data|..] == plain[pos + |data|..];
      if index >= INDEX_LIMIT { return Err(IndexOverflow); }
      var ct := a.seal(nonces(index), data, AssociatedData(id, index));
      if |ct| >= E.LIMIT { return Err(LengthField); }
      SealStep(a, id, nonces, plain[pos..], index, out);
      out := out + E.U32(|ct|) + nonces(index) + ct;
      index, pos := index + 1, pos + |data|;
    }
    assert plain[pos..] == [] && out + [] == out;
    SealRefuses(a, id, nonces, [], index);
    r := Ok(out);
  }

  lemma ConsCons(a: Bytes, b: Bytes, r: Result<Bytes, Error>)
    ensures Cons(a, Cons(b, r)) == Cons(a + b, r)
  {
    if r.Ok? { assert a + (b + r.value) == a + b + r.value; }
  }

  // ---- decrypt_file ----

  /** Reads that run past the end return what there is. */
  function OpenFrames(a: E.Aead, id: string, stream: Bytes, index: nat): (r: Result<Bytes, Error>)
    decreases |stream|
  {
    if stream == [] then Ok([])
    else if |stream| < 4 then Err(ShortLength)
    else if index >= INDEX_LIMIT then Err(IndexOverflow)
    else
      var body := stream[4..];
      var ivEnd := Least(12, |body|);
      var ctEnd := Least(ivEnd + E.ReadU32(stream[..4]), |body|);
      match a.open(body[..ivEnd], body[ivEnd..ctEnd], AssociatedData(id, index))
      case None => Err(InvalidTag)
      case Some(part) => Cons(part, OpenFrames(a, id, body[ctEnd..], index + 1))
  }

  function Decrypt(v: Services, stream: Bytes): (r: Result<Bytes, Error>) {
    if !(MAGIC <= stream) then Err(NotEnvelope)
    else if |stream| < 15 then Err(ShortLength)
    else
      var end := Least(15 + E.ReadU32(stream[11..15]), |stream|);
      match v.load(stream[15..end])
      case None => Err(BadHeader)
      case Some(h) =>
        match v.unwrap(h.wrapped)
        case None => Err(BadKey)
        case Some(dek) =>
          match OpenFrames(v.aes(dek), h.plaintextSha256, stream[end..], 0)
          case Err(e) => Err(e)
          case Ok(out) => if v.sha256(out) != h.plaintextSha256 then Err(DigestMismatch) else Ok(out)
  }

  lemma SliceOfDrop<T>(s: seq<T>, pos: nat, i: nat, j: nat, k: nat)
    requires pos <= |s| && i <= j <= k <= |s| - pos
    ensures s[pos..][i..][..j - i] == s[pos + i..pos + j]
    ensures s[pos..][i..][j - i..k - i] == s[pos + j..pos + k]
    ensures s[pos..][i..][k - i..] == s[pos + k..]
  {
    var t := s[pos + i..];
    assert s[pos..][i..] == t;
    assert t[..j - i] == s[pos + i..pos + j];
    assert t[j - i..k - i] == s[pos + j..pos + k];
    assert t[k - i..] == s[pos + k..];
  }

  lemma OpenFirst(a: E.Aead, id: string, stream: Bytes, index: nat)
    requires |stream| >= 4 && index < INDEX_LIMIT
    ensures var body := stream[4..];
      var ivEnd := Least(12, |body|);
      var ctEnd := Least(ivEnd + E.ReadU32(stream[..4]), |body|);
      var part := a.open(body[..ivEnd], body[ivEnd..ctEnd], AssociatedData(id, index));
      OpenFrames(a, id, stream, index) ==
      if part == None then Err(InvalidTag) else Cons(part.value, OpenFrames(a, id, body[ctEnd..], index + 1))
  {
    hide AssociatedData, E.ReadU32;
  }

  lemma OpenStep(a: E.Aead, id: string, stream: Bytes, pos: nat, index: nat, done: Bytes)
    requires pos + 4 <= |stream| && index < INDEX_LIMIT
    ensures var ivEnd := Least(pos + 16, |stream|);
      var ctEnd := Least(ivEnd + E.ReadU32(stream[pos..pos + 4]), |stream|);
      var part := a.open(stream[pos + 4..ivEnd], stream[ivEnd..ctEnd], AssociatedData(id, index));
      Cons(done, OpenFrames(a, id, stream[pos..], index)) ==
      if part == None then Err(InvalidTag)
      else Cons(done + part.value, OpenFrames(a, id, stream[ctEnd..], index + 1))
  {
    hide AssociatedData, E.ReadU32, OpenFrames, Cons;
    var ivEnd := Least(pos + 16, |stream|);
    var ctEnd := Least(ivEnd + E.ReadU32(stream[pos..pos + 4]), |stream|);
    var part := a.open(stream[pos + 4..ivEnd], stream[ivEnd..ctEnd], AssociatedData(id, index));
    var later := OpenFrames(a, id, stream[ctEnd..], index + 1);
    OpenRest(a, id, stream, pos, index);
    if part.Some? { ConsCons(done, part.value, later); } else { ConsError(done, InvalidTag); }
  }

  lemma OpenRest(a: E.Aead, id: string, stream: Bytes, pos: nat, index: nat)
    requires pos + 4 <= |stream| && index < INDEX_LIMIT
    ensures var ivEnd := Least(pos + 16, |stream|);
      var ctEnd := Least(ivEnd + E.ReadU32(stream[pos..pos + 4]), |stream|);
      var part := a.open(stream[pos + 4..ivEnd], stream[ivEnd..ctEnd], AssociatedData(id, index));
      OpenFrames(a, id, stream[pos..], index) ==
      if part == None then Err(InvalidTag) else Cons(part.value, OpenFrames(a, id, stream[ctEnd..], index + 1))
  {
    hide AssociatedData, E.ReadU32, OpenFrames, Cons;
    var rest := stream[pos..];
    assert rest[..4] == stream[pos..pos + 4];
    var length := E.ReadU32(stream[pos..pos + 4]);
    var ivEnd := Least(pos + 16, |stream|);
    var ctEnd := Least(ivEnd + length, |stream|);
    SliceOfDrop(stream, pos, 4, ivEnd - pos, ctEnd - pos);
    OpenFirst(a, id, rest, index);
    assert Least(12, |rest| - 4) == ivEnd - pos - 4;
    assert Least(ivEnd - pos - 4 + length, |rest| - 4) == ctEnd - pos - 4;
  }

  lemma ConsError(done: Bytes, e: Error)
    ensures Cons(done, Err(e)) == Err(e)
  {
  }

  method DecryptFile(v: Services, stream: Bytes) returns (r: Result<Bytes, Error>)
    ensures r == Decrypt(v, stream)
  {
    hide OpenFrames, AssociatedData, E.ReadU32;
    if |stream| < 11 || stream[..11] != MAGIC { return Err(NotEnvelope); }
    assert MAGIC <= stream;
    if |stream| < 15 { return Err(ShortLength); }
    var end := Least(15 + E.ReadU32(stream[11..15]), |stream|);
    var h := v.load(stream[15..end]);
    if h == None { return Err(BadHeader); }
    var dek := v.unwrap(h.value.wrapped);
    if dek == None { return Err(BadKey); }
    var a, id := v.aes(dek.value), h.value.plaintextSha256;
    var out, index, pos := [], 0, end;
    ghost var all := OpenFrames(a, id, stream[end..], 0);
    ConsNothing(all);
    while pos < |stream|
      invariant end <= pos <= |stream|
      invariant all == Cons(out, OpenFrames(a, id, stream[pos..], index))
    {
      OpenRefuses(a, id, stream[pos..], index);
      if |stream| - pos < 4 { return Err(ShortLength); }
      var length := E.ReadU32(stream[pos..pos + 4]);
      if index >= INDEX_LIMIT { return Err(IndexOverflow); }
      var ivEnd := Least(pos + 16, |stream|);
      var ctEnd := Least(ivEnd + length, |stream|);
      var part := a.open(stream[pos + 4..ivEnd], stream[ivEnd..ctEnd], AssociatedData(id, index));
      OpenStep(a, id, stream, pos, index, out);
      if part == None { return Err(InvalidTag); }
      out := out + part.value;
      index, pos := index + 1, ctEnd;
    }
    assert stream[pos..] == [];
    OpenRefuses(a, id, [], index);
    ConsNothing(Ok(out));
    if v.sha256(out) != id { return Err(DigestMismatch); }
    r := Ok(out);
  }

  lemma ConsNothing(r: Result<Bytes, Error>)
    ensures Cons([], r) == r
    ensures r.Ok? ==> Cons(r.value, Ok([])) == r
  {
    if r.Ok? { assert [] + r.value == r.value && r.value + [] == r.value; }
  }

  lemma OpenRefuses(a: E.Aead, id: string, stream: Bytes, index: nat)
    ensures stream == [] ==> OpenFrames(a, id, stream, index) == Ok([])
    ensures 0 < |stream| < 4 ==> OpenFrames(a, id, stream, index) == Err(ShortLength)
    ensures |stream| >= 4 && index >= INDEX_LIMIT ==> OpenFrames(a, id, stream, index) == Err(IndexOverflow)
  {
  }

  // ---- What an acceptable envelope is ----

  /** `stream` is the sealed `parts` from `index` on, each under a nonce of its own. The length
      field of the very last frame may claim more bytes than are there. */
  ghost predicate Frames(a: E.Aead, id: string, stream: Bytes, parts: seq<Bytes>, index: nat)
    decreases |parts|
  {
    if parts == [] then stream == []
    else
      index < INDEX_LIMIT &&
      exists nonce: Bytes, length: nat, rest: Bytes ::
        && |nonce| == 12 && length < E.LIMIT
        && FrameBefore(a, id, stream, parts[0], index, nonce, length, rest)
        && Frames(a, id, rest, parts[1..], index + 1)
  }

  ghost predicate FrameBefore(
      a: E.Aead, id: string, stream: Bytes, part: Bytes, index: nat, nonce: Bytes, length: nat, rest: Bytes)
    requires index < INDEX_LIMIT && length < E.LIMIT
  {
    var ct := a.seal(nonce, part, AssociatedData(id, index));
    && stream == E.U32(length) + nonce + ct + rest
    && (length == |ct| || (length > |ct| && rest == []))
  }

  lemma FrameOpens(
      a: E.Aead, id: string, stream: Bytes, part: Bytes, index: nat, nonce: Bytes, length: nat, rest: Bytes)
    requires E.Laws(a) && index < INDEX_LIMIT && |nonce| == 12 && length < E.LIMIT
    requires FrameBefore(a, id, stream, part, index, nonce, length, rest)
    ensures OpenFrames(a, id, stream, index) == Cons(part, OpenFrames(a, id, rest, index + 1))
  {
    var ct := a.seal(nonce, part, AssociatedData(id, index));
    var body := stream[4..];
    assert stream[..4] == E.U32(length);
    assert body == nonce + ct + rest;
    E.ReadWritten(length);
    var ctEnd := Least(12 + length, |body|);
    assert body[..12] == nonce && body[12..ctEnd] == ct && body[ctEnd..] == rest;
  }

  lemma {:induction false} FramesOpen(a: E.Aead, id: string, stream: Bytes, parts: seq<Bytes>, index: nat)
    requires E.Laws(a) && Frames(a, id, stream, parts, index)
    ensures OpenFrames(a, id, stream, index) == Ok(E.Concat(parts))
    decreases |parts|
  {
    hide FrameBefore, E.Laws, AssociatedData;
    if parts != [] {
      var nonce: Bytes, length: nat, rest: Bytes :|
        && |nonce| == 12 && length < E.LIMIT
        && FrameBefore(a, id, stream, parts[0], index, nonce, length, rest)
        && Frames(a, id, rest, parts[1..], index + 1);
      FrameOpens(a, id, stream, parts[0], index, nonce, length, rest);
      FramesOpen(a, id, rest, parts[1..], index + 1);
    } else {
      OpenRefuses(a, id, stream, index);
    }
  }

  lemma FramesStep(
      a: E.Aead, id: string, stream: Bytes, parts: seq<Bytes>, index: nat, nonce: Bytes, length: nat, rest: Bytes)
    requires parts != [] && index < INDEX_LIMIT && |nonce| == 12 && length < E.LIMIT
    requires FrameBefore(a, id, stream, parts[0], index, nonce, length, rest)
    requires Frames(a, id, rest, parts[1..], index + 1)
    ensures Frames(a, id, stream, parts, index)
  {
    hide FrameBefore;
  }

  lemma FirstFrame(a: E.Aead, id: string, stream: Bytes, index: nat)
    returns (part: Bytes, nonce: Bytes, length: nat, rest: Bytes)
    requires E.Laws(a) && stream != [] && OpenFrames(a, id, stream, index).Ok?
    ensures index < INDEX_LIMIT && |nonce| == 12 && length < E.LIMIT && |rest| < |stream|
    ensures FrameBefore(a, id, stream, part, index, nonce, length, rest)
    ensures OpenFrames(a, id, rest, index + 1).Ok?
    ensures OpenFrames(a, id, stream, index).value == part + OpenFrames(a, id, rest, index + 1).value
  {
    hide AssociatedData, E.ReadU32, E.U32, OpenFrames, E.Laws;
    OpenRefuses(a, id, stream, index);
    OpenFirst(a, id, stream, index);
    var body := stream[4..];
    length := E.ReadU32(stream[..4]);
    var ivEnd := Least(12, |body|);
    var ctEnd := Least(ivEnd + length, |body|);
    nonce, rest := body[..ivEnd], body[ctEnd..];
    var ct := body[ivEnd..ctEnd];
    part := a.open(nonce, ct, AssociatedData(id, index)).value;
    OnlySealedOpens(a, nonce, ct, AssociatedData(id, index));
    assert |ct| > 0 && ivEnd == 12;
    assert body == nonce + ct + rest && stream == stream[..4] + body;
    assert stream == E.U32(length) + nonce + ct + rest;
  }

  lemma OnlySealedOpens(a: E.Aead, nonce: Bytes, ct: Bytes, data: Bytes)
    requires E.Laws(a) && a.open(nonce, ct, data).Some?
    ensures ct == a.seal(nonce, a.open(nonce, ct, data).value, data) && |ct| >= E.TAG
  {
  }

  lemma {:induction false} OpenedFrames(a: E.Aead, id: string, stream: Bytes, index: nat) returns (parts: seq<Bytes>)
    requires E.Laws(a) && OpenFrames(a, id, stream, index).Ok?
    ensures Frames(a, id, stream, parts, index)
    ensures E.Concat(parts) == OpenFrames(a, id, stream, index).value
    decreases |stream|
  {
    hide OpenFrames, FrameBefore, E.Laws;
    parts := [];
    if stream == [] {
      OpenRefuses(a, id, stream, index);
    } else {
      var part, nonce, length, rest := FirstFrame(a, id, stream, index);
      var later := OpenedFrames(a, id, rest, index + 1);
      parts := [part] + later;
      assert parts[1..] == later;
      FramesStep(a, id, stream, parts, index, nonce, length, rest);
    }
  }

  /** The envelope's header, and the frames that follow it. */
  ghost predicate Opens(v: Services, stream: Bytes, h: Header, frames: Bytes) {
    exists length: nat, hb: Bytes ::
      && length < E.LIMIT && (length == |hb| || (length > |hb| && frames == []))
      && stream == MAGIC + E.U32(length) + hb + frames && v.load(hb) == Some(h)
  }

  lemma HeaderOpens(v: Services, stream: Bytes, length: nat, hb: Bytes, frames: Bytes)
    requires length < E.LIMIT && (length == |hb| || (length > |hb| && frames == []))
    requires stream == MAGIC + E.U32(length) + hb + frames
    ensures MAGIC <= stream && |stream| >= 15 && E.ReadU32(stream[11..15]) == length
    ensures var end := Least(15 + length, |stream|); stream[15..end] == hb && stream[end..] == frames
  {
    assert stream[11..15] == E.U32(length);
    E.ReadWritten(length);
    var end := Least(15 + length, |stream|);
    assert stream[15..end] == hb && stream[end..] == frames;
  }

  /** A header that reads, a data key that unwraps, and the parts of `out` sealed in order under
      the digest that `out` has. */
  ghost predicate Envelope(
      v: Services, stream: Bytes, out: Bytes, h: Header, dek: Bytes, frames: Bytes, parts: seq<Bytes>)
  {
    && Opens(v, stream, h, frames) && v.unwrap(h.wrapped) == Some(dek)
    && Frames(v.aes(dek), h.plaintextSha256, frames, parts, 0)
    && E.Concat(parts) == out && v.sha256(out) == h.plaintextSha256
  }

  lemma EnvelopeDecrypts(
      v: Services, stream: Bytes, out: Bytes, h: Header, dek: Bytes, frames: Bytes, parts: seq<Bytes>)
    requires Laws(v) && Envelope(v, stream, out, h, dek, frames, parts)
    ensures Decrypt(v, stream) == Ok(out)
  {
    hide Frames, E.Laws, OpenFrames, E.ReadU32, E.U32;
    FramesOpen(v.aes(dek), h.plaintextSha256, frames, parts, 0);
    var length: nat, hb: Bytes :|
      && length < E.LIMIT && (length == |hb| || (length > |hb| && frames == []))
      && stream == MAGIC + E.U32(length) + hb + frames && v.load(hb) == Some(h);
    HeaderOpens(v, stream, length, hb, frames);
  }

  lemma DecryptedEnvelope(v: Services, stream: Bytes, out: Bytes)
    returns (h: Header, dek: Bytes, frames: Bytes, parts: seq<Bytes>)
    requires Laws(v) && Decrypt(v, stream) == Ok(out)
    ensures Envelope(v, stream, out, h, dek, frames, parts)
  {
    hide Frames, E.Laws, OpenFrames;
    var length := E.ReadU32(stream[11..15]);
    var end := Least(15 + length, |stream|);
    h, frames := v.load(stream[15..end]).value, stream[end..];
    dek := v.unwrap(h.wrapped).value;
    parts := OpenedFrames(v.aes(dek), h.plaintextSha256, frames, 0);
    assert stream == MAGIC + stream[11..15] + stream[15..end] + frames;
    assert stream == MAGIC + E.U32(length) + stream[15..end] + frames;
  }

  /** Decryption accepts exactly the envelopes. */
  lemma DecryptsIff(v: Services, stream: Bytes, out: Bytes)
    requires Laws(v)
    ensures Decrypt(v, stream) == Ok(out) <==>
      exists h: Header, dek: Bytes, frames: Bytes, parts: seq<Bytes> ::
        Envelope(v, stream, out, h, dek, frames, parts)
  {
    hide Envelope, Decrypt, Laws;
    if Decrypt(v, stream) == Ok(out) {
      var h, dek, frames, parts := DecryptedEnvelope(v, stream, out);
    }
    if h: Header, dek: Bytes, frames: Bytes, parts: seq<Bytes> :| Envelope(v, stream, out, h, dek, frames, parts) {
      EnvelopeDecrypts(v, stream, out, h, dek, frames, parts);
    }
  }

  // ---- Round trip ----

  lemma PiecesStep(plain: Bytes)
    requires plain != []
    ensures var n, parts := Least(CHUNK, |plain|), E.Pieces(CHUNK, plain);
      0 < n <= |plain| && parts == [plain[..n]] + E.Pieces(CHUNK, plain[n..]) &&
        parts[1..] == E.Pieces(CHUNK, plain[n..])
  {
    if |plain| <= CHUNK {
      assert plain[..|plain|] == plain && plain[|plain|..] == [];
    }
  }

  lemma SealedStep(a: E.Aead, id: string, nonces: nat -> Bytes, plain: Bytes, index: nat)
    requires E.Laws(a) && plain != [] && index < INDEX_LIMIT
    ensures var n := Least(CHUNK, |plain|);
      var ct := a.seal(nonces(index), plain[..n], AssociatedData(id, index));
      |ct| == n + E.TAG < E.LIMIT &&
      SealFrames(a, id, nonces, plain, index) ==
      Cons(E.U32(|ct|) + nonces(index) + ct, SealFrames(a, id, nonces, plain[n..], index + 1))
  {
    hide AssociatedData, E.U32;
  }

  lemma {:induction false} SealedFrames(a: E.Aead, id: string, nonces: nat -> Bytes, plain: Bytes, index: nat)
    requires E.Laws(a) && (forall i :: |nonces(i)| == 12) && index + |E.Pieces(CHUNK, plain)| <= INDEX_LIMIT
    ensures SealFrames(a, id, nonces, plain, index).Ok?
    ensures Frames(a, id, SealFrames(a, id, nonces, plain, index).value, E.Pieces(CHUNK, plain), index)
    decreases |plain|
  {
    hide E.U32, AssociatedData, Frames, SealFrames, E.Laws, E.Pieces;
    if plain == [] {
      NothingSealed(a, id, nonces, index);
    } else {
      var n, parts := Least(CHUNK, |plain|), E.Pieces(CHUNK, plain);
      PiecesStep(plain);
      SealedStep(a, id, nonces, plain, index);
      SealedFrames(a, id, nonces, plain[n..], index + 1);
      var ct := a.seal(nonces(index), plain[..n], AssociatedData(id, index));
      var rest := SealFrames(a, id, nonces, plain[n..], index + 1).value;
      FramesStep(a, id, E.U32(|ct|) + nonces(index) + ct + rest, parts, index, nonces(index), |ct|, rest);
    }
  }

  lemma NothingSealed(a: E.Aead, id: string, nonces: nat -> Bytes, index: nat)
    ensures SealFrames(a, id, nonces, [], index) == Ok([]) && E.Pieces(CHUNK, []) == []
    ensures Frames(a, id, [], [], index)
  {
  }

  lemma NoFrames(a: E.Aead, id: string, index: nat)
    ensures Frames(a, id, [], [], index)
  {
  }

  /** Whatever the data key, the twelve-byte nonces and the other header fields, an encrypted file
      decrypts to itself. */
  lemma EncryptDecrypt(v: Services, dek: Bytes, nonces: nat -> Bytes, extra: string, plain: Bytes)
    requires Laws(v) && (forall i :: |nonces(i)| == 12) && |E.Pieces(CHUNK, plain)| <= INDEX_LIMIT
    requires |v.dump(Header(v.wrap(dek), v.sha256(plain), extra))| < E.LIMIT
    ensures Encrypt(v, dek, nonces, extra, plain).Ok?
    ensures Decrypt(v, Encrypt(v, dek, nonces, extra, plain).value) == Ok(plain)
  {
    hide SealFrames, Frames, E.Laws;
    var id, a := v.sha256(plain), v.aes(dek);
    var h := Header(v.wrap(dek), id, extra);
    var hb := v.dump(h);
    SealedFrames(a, id, nonces, plain, 0);
    var frames := SealFrames(a, id, nonces, plain, 0).value;
    var stream := Encrypt(v, dek, nonces, extra, plain).value;
    E.PiecesConcat(CHUNK, plain);
    assert stream == MAGIC + E.U32(|hb|) + hb + frames;
    assert Opens(v, stream, h, frames);
    EnvelopeDecrypts(v, stream, plain, h, dek, frames, E.Pieces(CHUNK, plain));
  }

  // ---- The last length field is not checked ----

  /** A stream whose last `size` bytes are one frame, with `length` in that frame's length field. */
  function Overstated(stream: Bytes, size: nat, length: nat): (r: Bytes)
    requires 4 <= size <= |stream| && length < E.LIMIT
  {
    stream[..|stream| - size] + E.U32(length) + stream[|stream| - size + 4..]
  }

  function LastPiece(plain: Bytes): (n: nat)
    requires plain != []
  {
    var parts := E.Pieces(CHUNK, plain);
    |parts[|parts| - 1]|
  }

  /** The bytes of a frame: length field, nonce, ciphertext and tag. */
  function FrameSize(n: nat): (size: nat) { 4 + 12 + n + E.TAG }

  lemma OverstatedAfter(front: Bytes, rest: Bytes, size: nat, length: nat)
    requires 4 <= size <= |rest| && length < E.LIMIT
    ensures Overstated(front + rest, size, length) == front + Overstated(rest, size, length)
  {
    hide E.U32;
    var s, k := front + rest, |front + rest| - size;
    assert s[..k] == front + rest[..|rest| - size] && s[k + 4..] == rest[|rest| - size + 4..];
  }

  lemma {:induction false} OverstatedFrames(
      a: E.Aead, id: string, nonces: nat -> Bytes, plain: Bytes, index: nat, length: nat)
    requires E.Laws(a) && (forall i :: |nonces(i)| == 12) && index + |E.Pieces(CHUNK, plain)| <= INDEX_LIMIT
    requires plain != [] && LastPiece(plain) + E.TAG <= length < E.LIMIT
    ensures var r := SealFrames(a, id, nonces, plain, index);
      r.Ok? && FrameSize(LastPiece(plain)) <= |r.value| &&
      Frames(a, id, Overstated(r.value, FrameSize(LastPiece(plain)), length), E.Pieces(CHUNK, plain), index) &&
      (length == LastPiece(plain) + E.TAG ==> Overstated(r.value, FrameSize(LastPiece(plain)), length) == r.value)
    decreases |plain|
  {
    hide E.U32, AssociatedData, Frames, SealFrames, E.Laws, E.Pieces, Overstated;
    var n, parts := Least(CHUNK, |plain|), E.Pieces(CHUNK, plain);
    var size := FrameSize(LastPiece(plain));
    PiecesStep(plain);
    SealedStep(a, id, nonces, plain, index);
    var ct := a.seal(nonces(index), plain[..n], AssociatedData(id, index));
    var front := E.U32(|ct|) + nonces(index) + ct;
    if n == |plain| {
      LastStep(a, id, nonces, plain, index);
      OverstatedWhole(nonces(index), ct, length);
      NoFrames(a, id, index + 1);
      FramesStep(a, id, Overstated(front, size, length), parts, index, nonces(index), length, []);
    } else {
      LastPieceLater(plain);
      OverstatedFrames(a, id, nonces, plain[n..], index + 1, length);
      var rest := SealFrames(a, id, nonces, plain[n..], index + 1).value;
      OverstatedAfter(front, rest, size, length);
      FramesStep(a, id, Overstated(front + rest, size, length), parts, index, nonces(index), |ct|,
        Overstated(rest, size, length));
    }
  }

  lemma LastStep(a: E.Aead, id: string, nonces: nat -> Bytes, plain: Bytes, index: nat)
    requires plain != [] && |plain| <= CHUNK
    ensures SealFrames(a, id, nonces, plain[|plain|..], index + 1) == Ok([]) && plain[..|plain|] == plain
    ensures E.Pieces(CHUNK, plain) == [plain] && LastPiece(plain) == |plain|
  {
    assert plain[|plain|..] == [];
  }

  lemma LastPieceLater(plain: Bytes)
    requires |plain| > CHUNK
    ensures plain[CHUNK..] != [] && LastPiece(plain) == LastPiece(plain[CHUNK..])
  {
    var parts, later := E.Pieces(CHUNK, plain), E.Pieces(CHUNK, plain[CHUNK..]);
    assert parts == [plain[..CHUNK]] + later;
  }

  lemma OverstatedWhole(nonce: Bytes, ct: Bytes, length: nat)
    requires |nonce| == 12 && |ct| < E.LIMIT && length < E.LIMIT
    ensures Overstated(E.U32(|ct|) + nonce + ct, 16 + |ct|, length) == E.U32(length) + nonce + ct + []
    ensures E.U32(|ct|) + nonce + ct + [] == E.U32(|ct|) + nonce + ct
  {
    hide E.U32;
    var s := E.U32(|ct|) + nonce + ct;
    assert s[..0] == [] && s[4..] == nonce + ct;
  }

  lemma OverstatedInjective(stream: Bytes, size: nat, m: nat, n: nat)
    requires 4 <= size <= |stream| && m < E.LIMIT && n < E.LIMIT && m != n
    ensures Overstated(stream, size, m) != Overstated(stream, size, n)
  {
    hide E.U32, E.ReadU32;
    E.ReadWritten(m);
    E.ReadWritten(n);
    var k := |stream| - size;
    assert Overstated(stream, size, m)[k..k + 4] == E.U32(m) && Overstated(stream, size, n)[k..k + 4] == E.U32(n);
  }

  /** Every encrypted file that is not empty still decrypts to itself after its last length field
      has been raised to anything at all. */
  lemma OverstatedLengthDecrypts(
      v: Services, dek: Bytes, nonces: nat -> Bytes, extra: string, plain: Bytes, length: nat)
    requires Laws(v) && (forall i :: |nonces(i)| == 12) && |E.Pieces(CHUNK, plain)| <= INDEX_LIMIT
    requires |v.dump(Header(v.wrap(dek), v.sha256(plain), extra))| < E.LIMIT
    requires plain != [] && LastPiece(plain) + E.TAG < length < E.LIMIT
    ensures var r := Encrypt(v, dek, nonces, extra, plain);
      r.Ok? && FrameSize(LastPiece(plain)) <= |r.value| &&
      Overstated(r.value, FrameSize(LastPiece(plain)), length) != r.value &&
      Decrypt(v, Overstated(r.value, FrameSize(LastPiece(plain)), length)) == Ok(plain)
  {
    hide SealFrames, Frames, E.Laws, E.U32, Overstated, Decrypt;
    var id, a, size := v.sha256(plain), v.aes(dek), FrameSize(LastPiece(plain));
    var h := Header(v.wrap(dek), id, extra);
    var hb := v.dump(h);
    OverstatedFrames(a, id, nonces, plain, 0, length);
    var frames := SealFrames(a, id, nonces, plain, 0).value;
    var front := MAGIC + E.U32(|hb|) + hb;
    OverstatedAfter(front, frames, size, length);
    E.PiecesConcat(CHUNK, plain);
    var stream := Overstated(front + frames, size, length);
    assert Opens(v, stream, h, Overstated(frames, size, length));
    EnvelopeDecrypts(v, stream, plain, h, dek, Overstated(frames, size, length), E.Pieces(CHUNK, plain));
    var exact := LastPiece(plain) + E.TAG;
    OverstatedFrames(a, id, nonces, plain, 0, exact);
    OverstatedAfter(front, frames, size, exact);
    OverstatedInjective(front + frames, size, length, exact);
  }
}
