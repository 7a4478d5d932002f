/** The hash-chained live attestation log: ChainLogger and verify_log. */
module AttestationLog {
  import opened Wrappers
  import opened Encodings
  import opened CanonicalJson
  import opened Dictionaries
  import opened HashChain
  import opened EventLinks
  import opened StringEscapes
  import opened PythonJson

  const HMAC := "event_hmac_sha256"

  /** SHA-256 and HMAC-SHA-256 as hex-digest functions, and Python's number writer. */
  datatype Primitives<!N> = Primitives(
    numText: N -> string, sha256: Bytes -> string, hmac: (Bytes, string) -> string)

  ghost predicate Lawful<N(!new)>(c: Primitives<N>) {
    NumbersLawful(c.numText) && forall k, h :: Ascii(c.hmac(k, h))
  }

  datatype Why =
    PrevHashMismatch | EventHashMismatch | MissingHmac | HmacKeyRequired | EventHmacMismatch | Raised

  datatype Outcome = Accepted(count: nat, head: string) | Rejected(line: nat, why: Why)

  type Key = Option<Bytes>

  function Message<N>(c: Primitives<N>, d: Dict<N>): (b: Bytes) {
    MessageOf(UnicodeStyle(c.numText), d)
  }

  /** The event with its two popped keys gone. */
  function Body<N>(d: Dict<N>): (r: Dict<N>) { Without(Without(d, HASH), HMAC) }

  /** Characters that JSON writes as they stand, whatever the script. */
  ghost predicate Unescaped(s: string) { forall i :: 0 <= i < |s| ==> s[i] as int >= 32 && s[i] != '"' && s[i] != '\\' }

  /** What is hashed is compact JSON text in UTF-8 that leaves other scripts as they are. */
  lemma MessageOfOne<N>(c: Primitives<N>, k: string, s: string)
    requires Unescaped(k) && Unescaped(s)
    ensures Message(c, [Member(k, Str(s))]) == Utf8("{\"" + k + "\":\"" + s + "\"}")
  {
    hide Utf8, EscapeControls, EscapeAll, Unescaped;
    UnescapedText(k);
    UnescapedText(s);
    OneMember(UnicodeStyle(c.numText), k, Str(s));
    assert "{" + (("\"" + k + "\"") + ":" + ("\"" + s + "\"")) + "}" == "{\"" + k + "\":\"" + s + "\"}";
  }

  lemma {:induction false} UnescapedText(s: string)
    requires Unescaped(s)
    ensures EscapeAll(EscapeControls, s) == s
  {
    if s != "" {
      UnescapedText(s[1..]);
      ShortForms(s[0]);
      assert s == [s[0]] + s[1..];
    }
  }

  // ---- verify_log ----

  function CheckHmac<N(==)>(
      c: Primitives<N>, key: Key, requireHmac: bool, mac: Json<N>, hash: string): (r: Option<Why>)
  {
    if mac == Null then if requireHmac then Some(MissingHmac) else None
    else
      match key
      case None => if requireHmac then Some(HmacKeyRequired) else None
      case Some(k) =>
        if !mac.Str? || !Ascii(mac.s) then Some(Raised)
        else if mac.s != c.hmac(k, hash) then Some(EventHmacMismatch) else None
  }

  predicate Ascii(s: string) { forall i :: 0 <= i < |s| ==> (s[i] as int) < 128 }

  /** One pass of the reading loop over an event. */
  function CheckEvent<N(==)>(
      c: Primitives<N>, key: Key, requireHmac: bool, count: nat, prev: string, line: nat, d: Dict<N>): (o: Outcome)
  {
    if HASH !in Names(d) then Rejected(line, Raised)
    else if Get(Body(d), PREV) != Str(prev) then Rejected(line, PrevHashMismatch)
    else
      var got, expected := Get(d, HASH), c.sha256(Message(c, Body(d)));
      if got != Str(expected) then
        Rejected(line, if got.Str? && Ascii(got.s) then EventHashMismatch else Raised)
      else
        match CheckHmac(c, key, requireHmac, Get(d, HMAC), expected)
        case Some(why) => Rejected(line, why)
        case None => Accepted(count + 1, expected)
  }

  function CheckLine<N(==)>(
      c: Primitives<N>, key: Key, requireHmac: bool, count: nat, prev: string, line: nat, l: Line<N>): (o: Outcome)
  {
    match l
    case Blank => Accepted(count, prev)
    case Unparsable => Rejected(line, Raised)
    case Parsed(v) =>
      if v.Obj? then CheckEvent(c, key, requireHmac, count, prev, line, v.members) else Rejected(line, Raised)
  }

  function Verify<N(==)>(c: Primitives<N>, lines: seq<Line<N>>, key: Key, requireHmac: bool): (o: Outcome) {
    if lines == [] then Accepted(0, GENESIS)
    else
      var n := |lines| - 1;
      match Verify(c, lines[..n], key, requireHmac)
      case Rejected(line, why) => Rejected(line, why)
      case Accepted(count, prev) => CheckLine(c, key, requireHmac, count, prev, n + 1, lines[n])
  }

  method VerifyLog<N(==)>(c: Primitives<N>, lines: seq<Line<N>>, key: Key, requireHmac: bool) returns (o: Outcome)
    ensures o == Verify(c, lines, key, requireHmac)
  {
    var prev, count := GENESIS, 0;
    for i := 0 to |lines|
      invariant Verify(c, lines[..i], key, requireHmac) == Accepted(count, prev)
    {
      assert lines[..i + 1][..i] == lines[..i];
      var step := CheckLine(c, key, requireHmac, count, prev, i + 1, lines[i]);
      if step.Rejected? {
        RejectionIsFinal(c, lines, key, requireHmac, i + 1);
        return step;
      }
      count, prev := step.count, step.head;
    }
    assert lines[..|lines|] == lines;
    o := Accepted(count, prev);
  }

  lemma {:induction false} RejectionIsFinal<N>(
      c: Primitives<N>, lines: seq<Line<N>>, key: Key, requireHmac: bool, i: nat)
    requires i <= |lines| && Verify(c, lines[..i], key, requireHmac).Rejected?
    ensures Verify(c, lines, key, requireHmac) == Verify(c, lines[..i], key, requireHmac)
    decreases |lines|
  {
    hide CheckLine;
    if i == |lines| {
      assert lines[..i] == lines;
    } else {
      var n := |lines| - 1;
      assert lines[..n][..i] == lines[..i];
      RejectionIsFinal(c, lines[..n], key, requireHmac, i);
    }
  }

  /** A rejection names the first line that fails, and the reason is true of it. */
  lemma {:induction false} RejectionMeans<N>(c: Primitives<N>, lines: seq<Line<N>>, key: Key, requireHmac: bool)
    requires Verify(c, lines, key, requireHmac).Rejected?
    ensures var o := Verify(c, lines, key, requireHmac);
      && 1 <= o.line <= |lines| && Verify(c, lines[..o.line - 1], key, requireHmac).Accepted?
      && Explains(c, Verify(c, lines[..o.line - 1], key, requireHmac).head, lines[o.line - 1], key, requireHmac, o.why)
  {
    hide CheckLine, Explains;
    var n := |lines| - 1;
    var before := Verify(c, lines[..n], key, requireHmac);
    if before.Rejected? {
      RejectionMeans(c, lines[..n], key, requireHmac);
      assert lines[..n][..before.line - 1] == lines[..before.line - 1];
    } else {
      RejectedLine(c, key, requireHmac, before.count, before.head, n + 1, lines[n]);
    }
  }

  ghost predicate Explains<N>(c: Primitives<N>, prev: string, l: Line<N>, key: Key, requireHmac: bool, why: Why) {
    if l.Parsed? && l.value.Obj? then Fault(c, prev, l.value.members, key, requireHmac, why)
    else !l.Blank? && why == Raised
  }

  /** compare_digest takes ASCII strings only. */
  ghost predicate Incomparable<N>(x: Json<N>) {
    x.Str? ==> exists i :: 0 <= i < |x.s| && x.s[i] as int >= 128
  }

  ghost predicate Fault<N>(c: Primitives<N>, prev: string, d: Dict<N>, key: Key, requireHmac: bool, why: Why) {
    var hash, mac := c.sha256(Message(c, Body(d))), Get(d, HMAC);
    if HASH !in Names(d) then why == Raised
    else if why == PrevHashMismatch then Get(Body(d), PREV) != Str(prev)
    else
      Get(Body(d), PREV) == Str(prev) &&
      match why
      case Raised =>
        (Get(d, HASH) != Str(hash) && Incomparable(Get(d, HASH))) ||
        (Get(d, HASH) == Str(hash) && mac != Null && key.Some? && Incomparable(mac))
      case EventHashMismatch => Get(d, HASH) != Str(hash) && !Incomparable(Get(d, HASH))
      case MissingHmac => Get(d, HASH) == Str(hash) && requireHmac && mac == Null
      case HmacKeyRequired => Get(d, HASH) == Str(hash) && requireHmac && mac != Null && key == None
      case EventHmacMismatch =>
        Get(d, HASH) == Str(hash) && key.Some? && mac.Str? && mac.s != c.hmac(key.value, hash) && !Incomparable(mac)
  }

  lemma RejectedLine<N>(
      c: Primitives<N>, key: Key, requireHmac: bool, count: nat, prev: string, line: nat, l: Line<N>)
    ensures var o := CheckLine(c, key, requireHmac, count, prev, line, l);
      o.Rejected? ==> o.line == line && Explains(c, prev, l, key, requireHmac, o.why)
  {
    hide Message, Body, Get, Names;
  }

  /** Every prefix of an accepted log is accepted. */
  lemma PrefixAccepted<N>(c: Primitives<N>, lines: seq<Line<N>>, key: Key, requireHmac: bool, i: nat)
    requires i <= |lines| && Verify(c, lines, key, requireHmac).Accepted?
    ensures Verify(c, lines[..i], key, requireHmac).Accepted?
  {
    if Verify(c, lines[..i], key, requireHmac).Rejected? {
      RejectionIsFinal(c, lines, key, requireHmac, i);
    }
  }

  // ---- ChainLogger ----

  /** The event append() writes after one whose hash is `prev`. */
  function Unhashed<N>(prev: string, core: Dict<N>): (d: Dict<N>) { Put(core, PREV, Str(prev)) }

  function NewHash<N>(c: Primitives<N>, prev: string, core: Dict<N>): (h: string) {
    c.sha256(Message(c, Unhashed(prev, core)))
  }

  function NewEvent<N>(c: Primitives<N>, key: Key, prev: string, core: Dict<N>): (d: Dict<N>) {
    var h := NewHash(c, prev, core);
    var e := Put(Unhashed(prev, core), HASH, Str(h));
    if key.Some? then Put(e, HMAC, Str(c.hmac(key.value, h))) else e
  }

  class LogFile<N> {
    var lines: seq<Line<N>>
    constructor ()
      ensures lines == []
    {
      lines := [];
    }
  }

  class ChainLogger<N(==)> {
    const c: Primitives<N>
    const file: LogFile<N>
    const hmacKey: Key
    var prevHash: string
    var count: nat

    constructor (c: Primitives<N>, file: LogFile<N>, hmacKey: Key, prevHash: string, count: nat)
      ensures this.c == c && this.file == file && this.hmacKey == hmacKey
      ensures this.prevHash == prevHash && this.count == count
    {
      this.c, this.file, this.hmacKey, this.prevHash, this.count := c, file, hmacKey, prevHash, count;
    }

    /** __init__ and _resume_existing; None where the existing file does not verify, which raises. */
    static method Open(c: Primitives<N>, file: LogFile<N>, hmacKey: Key) returns (r: Option<ChainLogger<N>>)
      ensures r.Some? <==> Verify(c, file.lines, hmacKey, false).Accepted?
      ensures r.Some? ==> fresh(r.value) && r.value.c == c && r.value.file == file && r.value.hmacKey == hmacKey
      ensures r.Some? ==> Verify(c, file.lines, hmacKey, false) == Accepted(r.value.count, r.value.prevHash)
    {
      var prevHash, count := GENESIS, 0;
      if file.lines != [] {
        var o := VerifyLog(c, file.lines, hmacKey, false);
        if o.Rejected? { return None; }
        prevHash, count := o.head, o.count;
      }
      var l := new ChainLogger(c, file, hmacKey, prevHash, count);
      r := Some(l);
    }

    method Append(core: Dict<N>) returns (event: Dict<N>)
      modifies this, file
      ensures event == NewEvent(c, hmacKey, old(prevHash), core)
      ensures file.lines == old(file.lines) + [Parsed(Obj(event))]
      ensures prevHash == NewHash(c, old(prevHash), core) && count == old(count) + 1
    {
      event := Put(core, PREV, Str(prevHash));
      var eventHash := c.sha256(Message(c, event));
      event := Put(event, HASH, Str(eventHash));
      if hmacKey.Some? {
        event := Put(event, HMAC, Str(c.hmac(hmacKey.value, eventHash)));
      }
      file.lines := file.lines + [Parsed(Obj(event))];
      prevHash := eventHash;
      count := count + 1;
    }
  }

  // ---- Appended events verify, exactly when their cores leave the chain's own keys alone ----

  predicate Reserved<N>(core: Dict<N>) { HASH in Names(core) || HMAC in Names(core) }

  lemma NewEventGet<N>(c: Primitives<N>, key: Key, prev: string, core: Dict<N>)
    requires ValidDict(core)
    ensures var d := NewEvent(c, key, prev, core); ValidDict(d) && ValidDict(Body(d))
    ensures ValidDict(Unhashed(prev, core)) && Get(Unhashed(prev, core), PREV) == Str(prev)
    ensures HASH in Names(NewEvent(c, key, prev, core))
    ensures Get(NewEvent(c, key, prev, core), HASH) == Str(NewHash(c, prev, core))
    ensures Get(NewEvent(c, key, prev, core), HMAC) ==
      if key.Some? then Str(c.hmac(key.value, NewHash(c, prev, core))) else Get(core, HMAC)
    ensures forall n :: n != HASH && n != HMAC ==>
      Get(Body(NewEvent(c, key, prev, core)), n) == Get(Unhashed(prev, core), n)
  {
    var u, h := Unhashed(prev, core), NewHash(c, prev, core);
    PutGet(core, PREV, Str(prev));
    PutGet(u, HASH, Str(h));
    var e := Put(u, HASH, Str(h));
    if key.Some? { PutGet(e, HMAC, Str(c.hmac(key.value, h))); }
    var d := NewEvent(c, key, prev, core);
    WithoutGet(d, HASH);
    WithoutGet(Without(d, HASH), HMAC);
  }

  lemma NewEventNames<N>(c: Primitives<N>, key: Key, prev: string, core: Dict<N>)
    ensures forall n :: n in Names(Unhashed(prev, core)) <==> n == PREV || n in Names(core)
    ensures forall n :: n in Names(Body(NewEvent(c, key, prev, core))) <==>
      n != HASH && n != HMAC && n in Names(Unhashed(prev, core))
  {
    hide Put, Without, Names, NewHash;
  }

  lemma NewEventBody<N(!new)>(c: Primitives<N>, key: Key, prev: string, core: Dict<N>)
    requires Lawful(c) && ValidDict(core)
    ensures ValidDict(Body(NewEvent(c, key, prev, core)))
    ensures Message(c, Body(NewEvent(c, key, prev, core))) == Message(c, Unhashed(prev, core)) <==> !Reserved(core)
  {
    hide MessageOf, Body, NewEvent, Unhashed, Names, Get, Denote, Meaning, WellFormed;
    var d, u := NewEvent(c, key, prev, core), Unhashed(prev, core);
    NewEventGet(c, key, prev, core);
    NewEventNames(c, key, prev, core);
    StylesAreLawful(c.numText);
    MessageFixesMeaning(UnicodeStyle(c.numText), Body(d), u);
    if Reserved(core) {
      var k := if HASH in Names(core) then HASH else HMAC;
      MeaningOfKey(Body(d), k);
      MeaningOfKey(u, k);
    } else {
      assert forall n :: n in Names(Body(d)) <==> n in Names(u);
      MeaningByKeys(Body(d), u);
    }
  }

  /** After an append the log still verifies exactly when the core held neither of the chain's
      own keys. The one escape is a hash collision between the message that was hashed and the
      different message that is checked. */
  lemma AppendVerifiesIff<N(!new)>(
      c: Primitives<N>, lines: seq<Line<N>>, key: Key, count: nat, prev: string, core: Dict<N>, reader: Key)
    requires Lawful(c) && ValidDict(core)
    requires Verify(c, lines, reader, false) == Accepted(count, prev)
    requires reader == None || key == None || reader == key
    ensures !Reserved(core) ==>
      Verify(c, lines + [Parsed(Obj(NewEvent(c, key, prev, core)))], reader, false) ==
      Accepted(count + 1, NewHash(c, prev, core))
    ensures var o := Verify(c, lines + [Parsed(Obj(NewEvent(c, key, prev, core)))], reader, false);
      Reserved(core) && o.Accepted? ==>
      var hashed, checked := Message(c, Unhashed(prev, core)), Message(c, Body(NewEvent(c, key, prev, core)));
      hashed != checked && c.sha256(hashed) == c.sha256(checked)
  {
    hide *;
    VerifyAppend(c, lines, Parsed(Obj(NewEvent(c, key, prev, core))), reader, false);
    CheckNewEvent(c, key, count, prev, |lines| + 1, core, reader);
  }

  /** It does happen: one append to a new log, of an event that holds an HMAC of its own. */
  lemma ReservedMemberRejected<N(!new)>(c: Primitives<N>)
    requires Lawful(c)
    ensures var core := [Member(HMAC, Str("x"))];
      var hashed, checked := Message(c, Unhashed(GENESIS, core)), Message(c, Body(NewEvent(c, None, GENESIS, core)));
      ValidDict(core) && hashed != checked &&
      (Verify(c, [Parsed(Obj(NewEvent(c, None, GENESIS, core)))], None, false).Rejected? ||
       c.sha256(hashed) == c.sha256(checked))
  {
    hide Message, Body, NewEvent, Unhashed, CheckLine;
    var core: Dict<N> := [Member(HMAC, Str("x"))];
    assert Names(core) == [HMAC] && WellFormed(core[0].value) && ValidDict(core);
    assert [] + [Parsed(Obj(NewEvent(c, None, GENESIS, core)))] == [Parsed(Obj(NewEvent(c, None, GENESIS, core)))];
    NewEventBody(c, None, GENESIS, core);
    AppendVerifiesIff(c, [], None, 0, GENESIS, core, None);
  }

  lemma VerifyAppend<N>(c: Primitives<N>, lines: seq<Line<N>>, l: Line<N>, key: Key, requireHmac: bool)
    ensures Verify(c, lines + [l], key, requireHmac) ==
      match Verify(c, lines, key, requireHmac)
      case Rejected(line, why) => Rejected(line, why)
      case Accepted(count, prev) => CheckLine(c, key, requireHmac, count, prev, |lines| + 1, l)
  {
    hide CheckLine;
    assert (lines + [l])[..|lines|] == lines;
  }

  lemma CheckNewEvent<N(!new)>(
      c: Primitives<N>, key: Key, count: nat, prev: string, line: nat, core: Dict<N>, reader: Key)
    requires Lawful(c) && ValidDict(core)
    requires reader == None || key == None || reader == key
    ensures !Reserved(core) ==>
      CheckLine(c, reader, false, count, prev, line, Parsed(Obj(NewEvent(c, key, prev, core)))) ==
      Accepted(count + 1, NewHash(c, prev, core))
    ensures var o := CheckLine(c, reader, false, count, prev, line, Parsed(Obj(NewEvent(c, key, prev, core))));
      Reserved(core) && o.Accepted? ==>
      var hashed, checked := Message(c, Unhashed(prev, core)), Message(c, Body(NewEvent(c, key, prev, core)));
      hashed != checked && c.sha256(hashed) == c.sha256(checked)
  {
    hide Message, Body, NewEvent, Unhashed, WellFormed, Distinct, Lookup;
    NewEventGet(c, key, prev, core);
    NewEventBody(c, key, prev, core);
    if !Reserved(core) {
      assert Get(core, HMAC) == Null;
    }
  }

  // ---- Sessions ----

  /** One logger's lifetime: opened under a key, then appended to. */
  datatype Session<+N> = Session(key: Key, cores: seq<Dict<N>>)

  function AppendAll<N>(
      c: Primitives<N>, key: Key, prev: string, lines: seq<Line<N>>, cores: seq<Dict<N>>): (r: seq<Line<N>>)
    decreases cores
  {
    if cores == [] then lines
    else
      var line := Parsed(Obj(NewEvent(c, key, prev, cores[0])));
      AppendAll(c, key, NewHash(c, prev, cores[0]), lines + [line], cores[1..])
  }

  /** The file after the sessions; None when one of them refused to open it. */
  function RunSessions<N(==)>(c: Primitives<N>, lines: seq<Line<N>>, ss: seq<Session<N>>): (r: Option<seq<Line<N>>>)
    decreases ss
  {
    if ss == [] then Some(lines)
    else
      match Verify(c, lines, ss[0].key, false)
      case Rejected(_, _) => None
      case Accepted(count, prev) => RunSessions(c, AppendAll(c, ss[0].key, prev, lines, ss[0].cores), ss[1..])
  }

  function Appends<N>(ss: seq<Session<N>>): (n: nat) {
    if ss == [] then 0 else |ss[0].cores| + Appends(ss[1..])
  }

  ghost predicate GoodCore<N>(core: Dict<N>) { ValidDict(core) && !Reserved(core) }

  ghost predicate GoodSession<N>(s: Session<N>, key: Key) {
    && (s.key == None || s.key == key)
    && forall i :: 0 <= i < |s.cores| ==> GoodCore(s.cores[i])
  }

  ghost predicate AcceptedByBoth<N>(c: Primitives<N>, lines: seq<Line<N>>, key: Key, count: nat, prev: string) {
    Verify(c, lines, key, false) == Accepted(count, prev) == Verify(c, lines, None, false)
  }

  ghost predicate BothAccept<N>(c: Primitives<N>, lines: seq<Line<N>>, key: Key, count: nat) {
    && Verify(c, lines, key, false).Accepted? && Verify(c, lines, key, false).count == count
    && Verify(c, lines, None, false) == Verify(c, lines, key, false)
  }

  lemma {:induction false} AppendAllVerifies<N(!new)>(
      c: Primitives<N>, s: Session<N>, key: Key, count: nat, prev: string, lines: seq<Line<N>>) returns (head: string)
    requires Lawful(c) && GoodSession(s, key) && AcceptedByBoth(c, lines, key, count, prev)
    ensures AcceptedByBoth(c, AppendAll(c, s.key, prev, lines, s.cores), key, count + |s.cores|, head)
    decreases s.cores
  {
    hide Verify, NewEvent, NewHash, Lawful;
    head := prev;
    if s.cores != [] {
      assert GoodCore(s.cores[0]);
      AppendVerifiesIff(c, lines, s.key, count, prev, s.cores[0], key);
      AppendVerifiesIff(c, lines, s.key, count, prev, s.cores[0], None);
      var line := Parsed(Obj(NewEvent(c, s.key, prev, s.cores[0])));
      head := AppendAllVerifies(c, Session(s.key, s.cores[1..]), key, count + 1, NewHash(c, prev, s.cores[0]),
        lines + [line]);
    }
  }

  /** Whatever the sessions, as long as they use one key or none: every open succeeds, and the
      log verifies with every append counted. */
  lemma {:induction false} SessionsVerify<N(!new)>(
      c: Primitives<N>, lines: seq<Line<N>>, count: nat, prev: string, ss: seq<Session<N>>, key: Key)
    requires Lawful(c) && AcceptedByBoth(c, lines, key, count, prev)
    requires forall i :: 0 <= i < |ss| ==> GoodSession(ss[i], key)
    ensures RunSessions(c, lines, ss).Some?
    ensures BothAccept(c, RunSessions(c, lines, ss).value, key, count + Appends(ss))
    decreases ss
  {
    hide Verify, GoodCore, Lawful, AppendAll;
    if ss != [] {
      var head := AppendAllVerifies(c, ss[0], key, count, prev, lines);
      SessionsVerify(c, AppendAll(c, ss[0].key, prev, lines, ss[0].cores), count + |ss[0].cores|, head, ss[1..], key);
    }
  }

  lemma BuiltLogsVerify<N(!new)>(c: Primitives<N>, ss: seq<Session<N>>, key: Key)
    requires Lawful(c) && forall i :: 0 <= i < |ss| ==> GoodSession(ss[i], key)
    ensures RunSessions(c, [], ss).Some?
    ensures Verify(c, RunSessions(c, [], ss).value, key, false).Accepted?
    ensures Verify(c, RunSessions(c, [], ss).value, key, false).count == Appends(ss)
    ensures forall i :: 0 <= i <= |RunSessions(c, [], ss).value| ==>
      Verify(c, RunSessions(c, [], ss).value[..i], key, false).Accepted?
  {
    hide RunSessions, GoodSession, Lawful;
    SessionsVerify(c, [], 0, GENESIS, ss, key);
    var lines := RunSessions(c, [], ss).value;
    forall i | 0 <= i <= |lines| ensures Verify(c, lines[..i], key, false).Accepted? {
      PrefixAccepted(c, lines, key, false, i);
    }
  }

  // ---- Sessions under any keys ----

  ghost predicate GoodCores<N>(cores: seq<Dict<N>>) { forall i :: 0 <= i < |cores| ==> GoodCore(cores[i]) }

  /** A reader without a key accepts what any reader accepts, with the same count and head. */
  lemma {:induction false} KeylessAgrees<N>(c: Primitives<N>, lines: seq<Line<N>>, key: Key, requireHmac: bool)
    requires Verify(c, lines, key, requireHmac).Accepted?
    ensures Verify(c, lines, None, false) == Verify(c, lines, key, requireHmac)
  {
    hide Message, Body;
    if lines != [] { KeylessAgrees(c, lines[..|lines| - 1], key, requireHmac); }
  }

  lemma {:induction false} AppendAllKeyless<N(!new)>(
      c: Primitives<N>, key: Key, count: nat, prev: string, lines: seq<Line<N>>, cores: seq<Dict<N>>)
    requires Lawful(c) && GoodCores(cores) && Verify(c, lines, None, false) == Accepted(count, prev)
    ensures Verify(c, AppendAll(c, key, prev, lines, cores), None, false).Accepted?
    ensures Verify(c, AppendAll(c, key, prev, lines, cores), None, false).count == count + |cores|
    decreases cores
  {
    hide Verify, NewEvent, NewHash, Lawful, GoodCore;
    if cores != [] {
      assert ValidDict(cores[0]) && !Reserved(cores[0]) by { CoreIsGood(cores[0]); }
      AppendVerifiesIff(c, lines, key, count, prev, cores[0], None);
      var line := Parsed(Obj(NewEvent(c, key, prev, cores[0])));
      AppendAllKeyless(c, key, count + 1, NewHash(c, prev, cores[0]), lines + [line], cores[1..]);
    }
  }

  lemma CoreIsGood<N>(core: Dict<N>)
    requires GoodCore(core)
    ensures ValidDict(core) && !Reserved(core)
  {
  }

  /** Whatever keys the sessions used: as long as each could open the file, the log verifies for a
      reader without a key, and counts every append. */
  lemma {:induction false} AnyKeysVerify<N(!new)>(c: Primitives<N>, lines: seq<Line<N>>, ss: seq<Session<N>>)
    requires Lawful(c) && Verify(c, lines, None, false).Accepted? && RunSessions(c, lines, ss).Some?
    requires forall i :: 0 <= i < |ss| ==> GoodCores(ss[i].cores)
    ensures Verify(c, RunSessions(c, lines, ss).value, None, false).Accepted?
    ensures Verify(c, RunSessions(c, lines, ss).value, None, false).count ==
      Verify(c, lines, None, false).count + Appends(ss)
    decreases ss
  {
    hide Verify, GoodCores, Lawful, AppendAll;
    if ss != [] {
      var o := Verify(c, lines, ss[0].key, false);
      KeylessAgrees(c, lines, ss[0].key, false);
      AppendAllKeyless(c, ss[0].key, o.count, o.head, lines, ss[0].cores);
      AnyKeysVerify(c, AppendAll(c, ss[0].key, o.head, lines, ss[0].cores), ss[1..]);
    }
  }

  // ---- Verification that requires an HMAC ----

  /** Every event was written under the key. */
  predicate AllKeyed<N>(ss: seq<Session<N>>, key: Bytes) {
    forall i :: 0 <= i < |ss| && ss[i].cores != [] ==> ss[i].key == Some(key)
  }

  lemma RequiredHmacStep<N(!new)>(
      c: Primitives<N>, key: Key, count: nat, prev: string, line: nat, core: Dict<N>, k: Bytes)
    requires Lawful(c) && GoodCore(core) && (key == None || key == Some(k))
    ensures CheckLine(c, Some(k), true, count, prev, line, Parsed(Obj(NewEvent(c, key, prev, core)))) ==
      if key == Some(k) then Accepted(count + 1, NewHash(c, prev, core)) else Rejected(line, MissingHmac)
  {
    hide Message, Body, NewEvent, Unhashed, Names, Get;
    NewEventGet(c, key, prev, core);
    NewEventBody(c, key, prev, core);
    assert Get(core, HMAC) == Null by { NotReserved(core); }
  }

  lemma NotReserved<N>(core: Dict<N>)
    requires GoodCore(core)
    ensures Get(core, HMAC) == Null
  {
  }

  lemma {:induction false} AppendAllExtends<N>(
      c: Primitives<N>, key: Key, prev: string, lines: seq<Line<N>>, cores: seq<Dict<N>>)
    ensures lines <= AppendAll(c, key, prev, lines, cores)
    decreases cores
  {
    hide NewEvent, NewHash;
    if cores != [] {
      AppendAllExtends(c, key, NewHash(c, prev, cores[0]), lines + [Parsed(Obj(NewEvent(c, key, prev, cores[0])))],
        cores[1..]);
    }
  }

  lemma {:induction false} RunExtends<N>(c: Primitives<N>, lines: seq<Line<N>>, ss: seq<Session<N>>)
    requires RunSessions(c, lines, ss).Some?
    ensures lines <= RunSessions(c, lines, ss).value
    decreases ss
  {
    hide Verify, AppendAll;
    if ss != [] {
      var o := Verify(c, lines, ss[0].key, false);
      AppendAllExtends(c, ss[0].key, o.head, lines, ss[0].cores);
      RunExtends(c, AppendAll(c, ss[0].key, o.head, lines, ss[0].cores), ss[1..]);
    }
  }

  lemma {:induction false} AppendAllRequired<N(!new)>(
      c: Primitives<N>, key: Key, count: nat, prev: string, lines: seq<Line<N>>, cores: seq<Dict<N>>, k: Bytes)
    requires Lawful(c) && GoodCores(cores) && (key == None || key == Some(k))
    requires Verify(c, lines, Some(k), true) == Accepted(count, prev)
    ensures Verify(c, AppendAll(c, key, prev, lines, cores), Some(k), true).Accepted? <==> cores == [] || key == Some(k)
    decreases cores
  {
    hide Verify, NewEvent, NewHash, Lawful, GoodCore, CheckLine;
    if cores != [] {
      assert GoodCore(cores[0]);
      var line, h := Parsed(Obj(NewEvent(c, key, prev, cores[0]))), NewHash(c, prev, cores[0]);
      VerifyAppend(c, lines, line, Some(k), true);
      RequiredHmacStep(c, key, count, prev, |lines| + 1, cores[0], k);
      if key == Some(k) {
        AppendAllRequired(c, key, count + 1, h, lines + [line], cores[1..], k);
      } else {
        AppendAllExtends(c, key, h, lines + [line], cores[1..]);
        StaysRejected(c, lines + [line], AppendAll(c, key, prev, lines, cores), Some(k), true);
      }
    }
  }

  lemma StaysRejected<N>(c: Primitives<N>, lines: seq<Line<N>>, more: seq<Line<N>>, key: Key, requireHmac: bool)
    requires lines <= more && Verify(c, lines, key, requireHmac).Rejected?
    ensures Verify(c, more, key, requireHmac).Rejected?
  {
    hide Verify;
    assert more[..|lines|] == lines;
    RejectionIsFinal(c, more, key, requireHmac, |lines|);
  }

  lemma {:induction false} SessionsRequired<N(!new)>(
      c: Primitives<N>, lines: seq<Line<N>>, ss: seq<Session<N>>, k: Bytes)
    requires Lawful(c) && Verify(c, lines, Some(k), true).Accepted? && RunSessions(c, lines, ss).Some?
    requires forall i :: 0 <= i < |ss| ==> GoodSession(ss[i], Some(k))
    ensures Verify(c, RunSessions(c, lines, ss).value, Some(k), true).Accepted? <==> AllKeyed(ss, k)
    decreases ss
  {
    hide Verify, GoodCore, Lawful, AppendAll;
    if ss != [] {
      var o := Verify(c, lines, ss[0].key, false);
      KeylessAgrees(c, lines, ss[0].key, false);
      KeylessAgrees(c, lines, Some(k), true);
      AppendAllRequired(c, ss[0].key, o.count, o.head, lines, ss[0].cores, k);
      var more := AppendAll(c, ss[0].key, o.head, lines, ss[0].cores);
      if Verify(c, more, Some(k), true).Accepted? {
        SessionsRequired(c, more, ss[1..], k);
        assert forall i :: 0 < i < |ss| ==> ss[1..][i - 1] == ss[i];
      } else {
        RunExtends(c, more, ss[1..]);
        StaysRejected(c, more, RunSessions(c, lines, ss).value, Some(k), true);
      }
    }
  }

  /** A log that sessions built, some under the key and some under none, passes verification that
      requires an HMAC exactly when every session that wrote anything had the key. */
  lemma RequiredHmacIff<N(!new)>(c: Primitives<N>, ss: seq<Session<N>>, k: Bytes)
    requires Lawful(c) && forall i :: 0 <= i < |ss| ==> GoodSession(ss[i], Some(k))
    ensures RunSessions(c, [], ss).Some?
    ensures Verify(c, RunSessions(c, [], ss).value, Some(k), true).Accepted? <==> AllKeyed(ss, k)
  {
    hide RunSessions, GoodSession, Lawful, AllKeyed;
    SessionsVerify(c, [], 0, GENESIS, ss, Some(k));
    SessionsRequired(c, [], ss, k);
  }

  // ---- The head fixes the log ----

  ghost predicate IsEvent<N>(l: Line<N>) {
    l.Parsed? && l.value.Obj? && Get(l.value.members, HASH).Str? && Get(Body(l.value.members), PREV).Str?
  }

  /** The events of a log, in order, as a hash chain. */
  ghost function Links<N>(c: Primitives<N>, lines: seq<Line<N>>): (r: seq<EventLink<N>>) {
    if lines == [] then []
    else
      var n := |lines| - 1;
      if !IsEvent(lines[n]) then Links(c, lines[..n])
      else
        var d := lines[n].value.members;
        Links(c, lines[..n]) + [LinkOf(UnicodeStyle(c.numText), Body(d), Get(d, HASH).s)]
  }

  /** What acceptance says of the last line. */
  lemma LastLineAccepted<N>(c: Primitives<N>, lines: seq<Line<N>>, key: Key, requireHmac: bool)
    requires lines != [] && Verify(c, lines, key, requireHmac).Accepted?
    ensures var n := |lines| - 1;
      var before, o := Verify(c, lines[..n], key, requireHmac), Verify(c, lines, key, requireHmac);
      before.Accepted? &&
      if lines[n].Blank? then o == before
      else
        IsEvent(lines[n]) &&
        var d := lines[n].value.members;
        Get(Body(d), PREV) == Str(before.head) && Get(d, HASH) == Str(c.sha256(Message(c, Body(d)))) &&
        o == Accepted(before.count + 1, c.sha256(Message(c, Body(d))))
  {
    hide Message, Body, Get, CheckHmac;
  }

  lemma {:induction false} AcceptedIsLinked<N(!new)>(c: Primitives<N>, lines: seq<Line<N>>, key: Key, requireHmac: bool)
    requires LinesValid(lines) && Verify(c, lines, key, requireHmac).Accepted?
    ensures Linked(c.sha256, Links(c, lines)) && FromEvents(UnicodeStyle(c.numText), Links(c, lines))
    ensures Verify(c, lines, key, requireHmac) == Accepted(|Links(c, lines)|, Head(Links(c, lines)))
  {
    hide MessageOf, Linked, FromEvents, WellFormed, Verify, Body, Get;
    var st := UnicodeStyle(c.numText);
    if lines == [] {
      EmptyChain(c.sha256, st);
      NothingToVerify(c, key, requireHmac);
    } else {
      var n := |lines| - 1;
      LastLineAccepted(c, lines, key, requireHmac);
      AcceptedIsLinked(c, lines[..n], key, requireHmac);
      if !lines[n].Blank? {
        var d := lines[n].value.members;
        BodyIsValid(d);
        LinkedAppend(c.sha256, Links(c, lines[..n]), LinkOf(st, Body(d), Get(d, HASH).s));
        AppendFromEvent(st, Links(c, lines[..n]), Body(d), Get(d, HASH).s);
      }
    }
  }

  lemma NothingToVerify<N>(c: Primitives<N>, key: Key, requireHmac: bool)
    ensures Verify(c, [], key, requireHmac) == Accepted(0, GENESIS)
  {
  }

  lemma BodyIsValid<N>(d: Dict<N>)
    requires ValidDict(d)
    ensures ValidDict(Body(d))
  {
    WithoutGet(d, HASH);
    WithoutGet(Without(d, HASH), HMAC);
  }

  /** What the last line has to be for an accepted file to stay accepted. */
  lemma LastLineIff<N>(c: Primitives<N>, lines: seq<Line<N>>)
    requires lines != []
    ensures var n := |lines| - 1;
      var before, o := Verify(c, lines[..n], None, false), Verify(c, lines, None, false);
      o.Accepted? <==> before.Accepted? && Continues(c, before.head, lines[n])
  {
    hide CheckLine, Continues;
    var o := Verify(c, lines[..|lines| - 1], None, false);
    if o.Accepted? { LineContinues(c, o.count, o.head, |lines|, lines[|lines| - 1]); }
  }

  ghost predicate Continues<N>(c: Primitives<N>, prev: string, l: Line<N>) {
    l.Blank? ||
    (IsEvent(l) &&
     var d := l.value.members;
     Get(Body(d), PREV) == Str(prev) && Get(d, HASH) == Str(c.sha256(Message(c, Body(d)))))
  }

  lemma LineContinues<N>(c: Primitives<N>, count: nat, prev: string, line: nat, l: Line<N>)
    ensures CheckLine(c, None, false, count, prev, line, l).Accepted? <==> Continues(c, prev, l)
  {
    hide Message, Body, Get, Names;
    if l.Parsed? && l.value.Obj? { NamedIfGiven(l.value.members, HASH); }
  }

  lemma NamedIfGiven<N>(d: Dict<N>, k: string)
    ensures Get(d, k) != Null ==> k in Names(d)
  {
  }

  /** A file is accepted without a key exactly when its lines are blanks and events, and the events
      form a linked chain. */
  lemma {:induction false} AcceptedIffLinked<N(!new)>(c: Primitives<N>, lines: seq<Line<N>>)
    requires LinesValid(lines)
    ensures Verify(c, lines, None, false).Accepted? <==>
      (forall l :: l in lines ==> l.Blank? || IsEvent(l)) && Linked(c.sha256, Links(c, lines))
  {
    hide MessageOf, Linked, WellFormed, Verify, Body, Get;
    if lines == [] {
      EmptyChain(c.sha256, UnicodeStyle(c.numText));
      NothingToVerify(c, None, false);
    } else {
      var n := |lines| - 1;
      var before := lines[..n];
      AcceptedIffLinked(c, before);
      LastLineIff(c, lines);
      assert lines == before + [lines[n]];
      if Verify(c, before, None, false).Accepted? { AcceptedIsLinked(c, before, None, false); }
      if IsEvent(lines[n]) {
        var d := lines[n].value.members;
        LinkedSnoc(c.sha256, Links(c, before), LinkOf(UnicodeStyle(c.numText), Body(d), Get(d, HASH).s));
      }
    }
  }

  /** What a reader with a key asks of an event's HMAC: that the key made it from the event's hash;
      it may be missing only where none is required. */
  ghost predicate HmacFits<N>(c: Primitives<N>, k: Bytes, requireHmac: bool, l: Line<N>) {
    l.Parsed? && l.value.Obj? ==>
      var d := l.value.members;
      if Get(d, HMAC) == Null then !requireHmac
      else Get(d, HASH).Str? && Get(d, HMAC) == Str(c.hmac(k, Get(d, HASH).s))
  }

  lemma KeyedStep<N(!new)>(c: Primitives<N>, k: Bytes, r: bool, count: nat, prev: string, line: nat, l: Line<N>)
    requires Lawful(c)
    ensures CheckLine(c, Some(k), r, count, prev, line, l).Accepted? <==>
      CheckLine(c, None, false, count, prev, line, l).Accepted? && HmacFits(c, k, r, l)
    ensures CheckLine(c, None, true, count, prev, line, l).Accepted? <==> l.Blank?
  {
    hide CheckHmac, Message, Body, Get, Names, Lawful;
    if l.Parsed? && l.value.Obj? {
      var d := l.value.members;
      KeyedHmac(c, k, r, Get(d, HMAC), c.sha256(Message(c, Body(d))));
    }
  }

  lemma KeyedHmac<N(!new)>(c: Primitives<N>, k: Bytes, r: bool, mac: Json<N>, hash: string)
    requires Lawful(c)
    ensures CheckHmac(c, Some(k), r, mac, hash) == None <==>
      if mac == Null then !r else mac == Str(c.hmac(k, hash))
    ensures CheckHmac(c, None, false, mac, hash) == None && CheckHmac(c, None, true, mac, hash) != None
  {
  }

  /** With a key: accepted exactly when accepted without one and every HMAC fits. Where HMACs are
      required and there is no key, only an empty file is. */
  lemma {:induction false} KeyedIff<N(!new)>(c: Primitives<N>, lines: seq<Line<N>>, k: Bytes, r: bool)
    requires Lawful(c)
    ensures Verify(c, lines, Some(k), r).Accepted? <==>
      Verify(c, lines, None, false).Accepted? && forall l :: l in lines ==> HmacFits(c, k, r, l)
    ensures Verify(c, lines, None, true).Accepted? <==> forall l :: l in lines ==> l.Blank?
  {
    hide CheckLine, Lawful, HmacFits;
    if lines != [] {
      var n := |lines| - 1;
      var before := lines[..n];
      KeyedIff(c, before, k, r);
      assert lines == before + [lines[n]];
      if Verify(c, before, Some(k), r).Accepted? { KeylessAgrees(c, before, Some(k), r); }
      if Verify(c, before, None, true).Accepted? { KeylessAgrees(c, before, None, true); }
      var o := Verify(c, before, None, false);
      if o.Accepted? { KeyedStep(c, k, r, o.count, o.head, n + 1, lines[n]); }
    }
  }

  /** So a log with an event that was written under another key is rejected, unless both keys make
      the same HMAC of its hash. */
  lemma OtherKeyRejected<N(!new)>(
      c: Primitives<N>, lines: seq<Line<N>>, k: Bytes, r: bool, other: Bytes, prev: string, core: Dict<N>)
    requires Lawful(c) && ValidDict(core) && Parsed(Obj(NewEvent(c, Some(other), prev, core))) in lines
    requires Verify(c, lines, Some(k), r).Accepted?
    ensures c.hmac(k, NewHash(c, prev, core)) == c.hmac(other, NewHash(c, prev, core))
  {
    hide Verify, NewEvent, NewHash, Lawful;
    KeyedIff(c, lines, k, r);
    NewEventGet(c, Some(other), prev, core);
    assert HmacFits(c, k, r, Parsed(Obj(NewEvent(c, Some(other), prev, core))));
  }

  /** Two accepted logs with the same last hash say the same thing event by event; otherwise two
      of their events collide under SHA-256, or, when their lengths differ, an event hashes to
      sixty-four zeros. */
  lemma HeadFixesEvents<N(!new)>(
      c: Primitives<N>, a: seq<Line<N>>, b: seq<Line<N>>, key: Key, otherKey: Key, r: bool, s: bool)
    requires Lawful(c) && LinesValid(a) && LinesValid(b)
    requires Verify(c, a, key, r).Accepted? && Verify(c, b, otherKey, s).Accepted?
    requires Verify(c, a, key, r).head == Verify(c, b, otherKey, s).head
    ensures Links(c, a) == Links(c, b) || Collide(c.sha256, Links(c, a), Links(c, b)) ||
      (Verify(c, a, key, r).count != Verify(c, b, otherKey, s).count &&
        (HitsGenesis(c.sha256, Links(c, a)) || HitsGenesis(c.sha256, Links(c, b))))
  {
    hide *;
    AcceptedIsLinked(c, a, key, r);
    AcceptedIsLinked(c, b, otherKey, s);
    NumbersOf(c);
    StylesAreLawful(c.numText);
    EventsFaithful(UnicodeStyle(c.numText), Links(c, a), Links(c, b));
    HeadFixesLog(c.sha256, Links(c, a), Links(c, b));
  }

  lemma NumbersOf<N(!new)>(c: Primitives<N>)
    requires Lawful(c)
    ensures NumbersLawful(c.numText)
  {
  }
}
