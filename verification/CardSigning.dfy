/** Signing Agent Cards. A signature covers a protected header and the prepared card, so that
    signatures added later leave the earlier ones standing, and the signed bytes fix both. */
module CardSigning {
  import opened Wrappers
  import opened Sorting
  import opened Encodings
  import opened CanonicalJson
  import opened Dictionaries
  import opened StringEscapes
  import opened Rfc8785
  import opened PythonJson
  import opened AgentCard

  /** A private key, with the header values it signs under. */
  datatype Signer = Signer(kid: string, alg: string, jku: Option<string>, sign: Bytes -> Bytes)

  function ProtectedHeader(s: Signer): (d: Object) {
    [Member("alg", Str(s.alg)), Member("typ", Str("JOSE")), Member("kid", Str(s.kid))] +
    if s.jku.Some? && s.jku.value != "" then [Member("jku", Str(s.jku.value))] else []
  }

  function ProtectedText(s: Signer): (t: string) {
    Base64Url(Utf8(Canon(AsciiStyle(NumberToString), Obj(ProtectedHeader(s)))))
  }

  // ---- The protected text ----

  ghost function Quoted(s: string): (t: string) { Quote(EscapeNonAscii, s) }

  /** Compact JSON with members in the order of their names; jku only where there is one. */
  ghost function HeaderText(s: Signer): (t: string) {
    var alg, kid, typ := "\"alg\":" + Quoted(s.alg), "\"kid\":" + Quoted(s.kid), "\"typ\":\"JOSE\"";
    if s.jku == None || s.jku.value == "" then "{" + alg + "," + kid + "," + typ + "}"
    else "{" + alg + "," + ("\"jku\":" + Quoted(s.jku.value)) + "," + kid + "," + typ + "}"
  }

  /** What the protected text decodes to. */
  lemma ProtectedTextReads(s: Signer)
    ensures Base64UrlText(ProtectedText(s)) && Base64UrlDecode(ProtectedText(s)) == Some(Utf8(HeaderText(s)))
  {
    hide Canon, Base64Url, Base64UrlDecode, Base64UrlText, Utf8, HeaderText;
    ProtectedHeaderText(s);
    Base64UrlRoundTrip(Utf8(HeaderText(s)));
  }

  lemma FirstCharacterOrders(s: string, t: string)
    requires s != "" && t != "" && s[0] < t[0]
    ensures CodePointLe(s, t)
  {
    CodePointLeMeans(s, t);
    assert s[..0] == t[..0];
  }

  /** Names with different first characters, in the order of these, are sorted. */
  lemma FirstCharactersSort(names: seq<string>, ks: seq<string>)
    requires multiset(names) == multiset(ks) && forall i :: 0 <= i < |ks| ==> ks[i] != ""
    requires forall i, j :: 0 <= i < j < |ks| ==> ks[i][0] < ks[j][0]
    ensures Sort(CodePointLe, names) == ks
  {
    CodePointOrderIsTotal();
    forall i, j | 0 <= i < j < |ks| ensures CodePointLe(ks[i], ks[j]) { FirstCharacterOrders(ks[i], ks[j]); }
    SortDependsOnMultiset(CodePointLe, names, ks);
    SortOfSorted(CodePointLe, ks);
  }

  lemma ProtectedNames(s: Signer)
    ensures Names(ProtectedHeader(s)) ==
      ["alg", "typ", "kid"] + if s.jku == None || s.jku.value == "" then [] else ["jku"]
  {
    hide Names;
  }

  lemma ProtectedNamesInOrder(s: Signer)
    ensures Sort(CodePointLe, Names(ProtectedHeader(s))) ==
      if s.jku == None || s.jku.value == "" then ["alg", "kid", "typ"] else ["alg", "jku", "kid", "typ"]
  {
    hide Sort, CodePointLe, Names, ProtectedHeader;
    ProtectedNames(s);
    assert ["alg", "typ", "kid"] + [] == ["alg", "typ", "kid"];
    assert ["alg", "typ", "kid"] + ["jku"] == ["alg", "typ", "kid", "jku"];
    if s.jku == None || s.jku.value == "" { ThreeNames(); } else { FourNames(); }
  }

  lemma ThreeNames()
    ensures Sort(CodePointLe, ["alg", "typ", "kid"]) == ["alg", "kid", "typ"]
  {
    hide Sort, CodePointLe;
    FirstCharactersSort(["alg", "typ", "kid"], ["alg", "kid", "typ"]);
  }

  lemma FourNames()
    ensures Sort(CodePointLe, ["alg", "typ", "kid", "jku"]) == ["alg", "jku", "kid", "typ"]
  {
    hide Sort, CodePointLe;
    FirstCharactersSort(["alg", "typ", "kid", "jku"], ["alg", "jku", "kid", "typ"]);
  }

  lemma {:induction false} TextOfString(ms: seq<Member<EsNumber>>, k: string, s: string, i: nat)
    requires i < |ms| && ms[i] == Member(k, Str(s)) && forall j :: 0 <= j < i ==> ms[j].key != k
    ensures k in Names(ms) && MemberText(AsciiStyle(NumberToString), ms, k) == Quoted(k) + ":" + Quoted(s)
  {
    hide Quote;
    assert Names(ms)[i] == k;
    if i > 0 { TextOfString(ms[1..], k, s, i - 1); }
  }

  lemma ProtectedMembers(s: Signer)
    ensures var st, ms := AsciiStyle(NumberToString), ProtectedHeader(s);
      && "alg" in Names(ms) && MemberText(st, ms, "alg") == "\"alg\":" + Quoted(s.alg)
      && "kid" in Names(ms) && MemberText(st, ms, "kid") == "\"kid\":" + Quoted(s.kid)
      && "typ" in Names(ms) && MemberText(st, ms, "typ") == "\"typ\":\"JOSE\""
      && (s.jku.Some? && s.jku.value != "" ==>
           "jku" in Names(ms) && MemberText(st, ms, "jku") == "\"jku\":" + Quoted(s.jku.value))
  {
    hide Names, MemberText, Quoted;
    var ms := ProtectedHeader(s);
    QuotedNames();
    TextOfString(ms, "alg", s.alg, 0);
    TextOfString(ms, "typ", "JOSE", 1);
    TextOfString(ms, "kid", s.kid, 2);
    if s.jku.Some? && s.jku.value != "" { TextOfString(ms, "jku", s.jku.value, 3); }
  }

  lemma MembersInTurn<N>(st: Style<N>, ms: seq<Member<N>>, ks: seq<string>)
    requires ks != [] && forall k :: k in ks ==> k in Names(ms)
    ensures MembersText(st, ms, ks) ==
      MemberText(st, ms, ks[0]) + if |ks| == 1 then "" else "," + MembersText(st, ms, ks[1..])
  {
    hide Canon, Quote, Lookup, Names;
  }

  lemma ThreeMembers<N>(st: Style<N>, ms: seq<Member<N>>, a: string, b: string, c: string)
    requires {a, b, c} <= set k | k in Names(ms)
    ensures MembersText(st, ms, [a, b, c]) ==
      MemberText(st, ms, a) + "," + MemberText(st, ms, b) + "," + MemberText(st, ms, c)
  {
    hide MemberText, MembersText, Names;
    MembersInTurn(st, ms, [a, b, c]);
    assert [a, b, c][1..] == [b, c];
    MembersInTurn(st, ms, [b, c]);
    assert [b, c][1..] == [c];
    MembersInTurn(st, ms, [c]);
  }

  lemma ProtectedHeaderText(s: Signer)
    ensures Canon(AsciiStyle(NumberToString), Obj(ProtectedHeader(s))) == HeaderText(s)
  {
    hide Sort, Canon, MemberText, MembersText, Quoted, ProtectedHeader, Names;
    var st, ms := AsciiStyle(NumberToString), ProtectedHeader(s);
    ProtectedNamesInOrder(s);
    ProtectedMembers(s);
    if s.jku == None || s.jku.value == "" {
      ObjectIs(st, ms, ["alg", "kid", "typ"]);
      ThreeMembers(st, ms, "alg", "kid", "typ");
      JoinThree(MemberText(st, ms, "alg"), MemberText(st, ms, "kid"), MemberText(st, ms, "typ"));
    } else {
      var ks := ["alg", "jku", "kid", "typ"];
      ObjectIs(st, ms, ks);
      MembersInTurn(st, ms, ks);
      assert ks[1..] == ["jku", "kid", "typ"];
      ThreeMembers(st, ms, "jku", "kid", "typ");
      JoinFour(
        MemberText(st, ms, "alg"), MemberText(st, ms, "jku"), MemberText(st, ms, "kid"), MemberText(st, ms, "typ"));
    }
  }

  lemma JoinThree(a: string, b: string, c: string)
    ensures "{" + (a + "," + b + "," + c) + "}" == "{" + a + "," + b + "," + c + "}"
  {
  }

  lemma JoinFour(a: string, b: string, c: string, d: string)
    ensures "{" + (a + ("," + (b + "," + c + "," + d))) + "}" == "{" + a + "," + b + "," + c + "," + d + "}"
  {
  }

  lemma QuotedNames()
    ensures Quoted("alg") == "\"alg\"" && Quoted("jku") == "\"jku\"" && Quoted("kid") == "\"kid\""
    ensures Quoted("typ") == "\"typ\"" && Quoted("JOSE") == "\"JOSE\""
  {
    hide EscapeAll, EscapeNonAscii;
    PlainText("alg");
    PlainText("jku");
    PlainText("kid");
    PlainText("typ");
    PlainText("JOSE");
  }

  function PayloadText(prepared: Object): (t: string) { Base64Url(Utf8(Canon(STYLE, Obj(prepared)))) }

  function SigningInput(protected: string, prepared: Object): (b: Bytes) {
    Utf8(protected + "." + PayloadText(prepared))
  }

  /** What is signed: the protected text, a full stop, and base64url text that decodes to the UTF-8
      of the card's canonical text. */
  lemma SigningInputReads(protected: string, prepared: Object) returns (payload: string)
    ensures Base64UrlText(payload) && Base64UrlDecode(payload) == Some(Utf8(Canon(STYLE, Obj(prepared))))
    ensures SigningInput(protected, prepared) == Utf8(protected) + Utf8(".") + Utf8(payload)
  {
    hide Canon, Utf8Char;
    payload := PayloadText(prepared);
    Base64UrlRoundTrip(Utf8(Canon(STYLE, Obj(prepared))));
    Utf8Append(protected + ".", payload);
    Utf8Append(protected, ".");
  }

  function Signatures(card: Object): (r: Option<seq<Field>>) {
    if "signatures" !in Names(card) then Some([])
    else
      match Get(card, "signatures")
      case Arr(xs) => Some(xs)
      case _ => None
  }

  function EntryOf(protected: string, signature: string): (v: Field) {
    Obj([Member("protected", Str(protected)), Member("signature", Str(signature))])
  }

  function Entry(s: Signer, prepared: Object): (v: Field) {
    EntryOf(ProtectedText(s), Base64Url(s.sign(SigningInput(ProtectedText(s), prepared))))
  }

  /** sign_card; None where it raises. */
  function SignCard(card: Object, s: Signer): (r: Option<Object>) {
    match Prepare(card)
    case None => None
    case Some(prepared) =>
      match Signatures(card)
      case None => None
      case Some(xs) => Some(Put(card, "signatures", Arr(xs + [Entry(s, prepared)])))
  }

  /** The part of verify_card that decides whether one signature is valid under one key. */
  predicate Verifies(card: Object, entry: Field, verify: (Bytes, Bytes) -> bool) {
    Prepare(card).Some? && entry.Obj? &&
    match (Get(entry.members, "protected"), Get(entry.members, "signature"))
    case (Str(p), Str(sig)) =>
      Base64UrlText(sig) && Base64UrlDecode(sig).Some? &&
      verify(SigningInput(p, Prepare(card).value), Base64UrlDecode(sig).value)
    case _ => false
  }

  function SignAll(card: Object, ss: seq<Signer>): (r: Option<Object>) {
    if ss == [] then Some(card)
    else
      match SignAll(card, ss[..|ss| - 1])
      case None => None
      case Some(c) => SignCard(c, ss[|ss| - 1])
  }

  // ---- Preparation does not see signatures ----

  lemma {:induction false} FilteredCons(rule: Rule, m: Member<EsNumber>, d: Object)
    ensures Filtered(rule, [m] + d) ==
      (if rule(m.key, m.value).Keep? then [Member(m.key, rule(m.key, m.value).value)] else []) + Filtered(rule, d)
    ensures Fails(rule, [m] + d) <==> rule(m.key, m.value) == Fail || Fails(rule, d)
  {
    var e := [m] + d;
    FailsCons(rule, m, d);
    if d == [] {
      assert e[..0] == [] && e == [m];
    } else {
      var n := |d| - 1;
      FilteredCons(rule, m, d[..n]);
      assert e[..|e| - 1] == [m] + d[..n];
    }
  }

  lemma FailsCons(rule: Rule, m: Member<EsNumber>, d: Object)
    ensures Fails(rule, [m] + d) <==> rule(m.key, m.value) == Fail || Fails(rule, d)
  {
    var e := [m] + d;
    if Fails(rule, d) {
      var i :| 0 <= i < |d| && rule(d[i].key, d[i].value) == Fail;
      assert e[i + 1] == d[i];
    }
    if rule(m.key, m.value) == Fail { assert e[0] == m; }
  }

  lemma {:induction false} PrepareIgnoresSignatures(card: Object, x: Field)
    ensures Prepare(Put(card, "signatures", x)) == Prepare(card)
  {
    var p := Put(card, "signatures", x);
    if card == [] {
      assert p == [Member("signatures", x)] + [];
      FilteredCons(TopRule, Member("signatures", x), []);
    } else {
      assert card == [card[0]] + card[1..];
      FilteredCons(TopRule, card[0], card[1..]);
      if card[0].key == "signatures" {
        FilteredCons(TopRule, Member("signatures", x), card[1..]);
      } else {
        PrepareIgnoresSignatures(card[1..], x);
        FilteredCons(TopRule, card[0], Put(card[1..], "signatures", x));
      }
    }
  }

  lemma SignCardSteps(card: Object, s: Signer)
    requires ValidDict(card) && SignCard(card, s).Some?
    ensures ValidDict(SignCard(card, s).value) && Prepare(SignCard(card, s).value) == Prepare(card)
    ensures Signatures(card).Some? && Prepare(card).Some?
    ensures Signatures(SignCard(card, s).value) == Some(Signatures(card).value + [Entry(s, Prepare(card).value)])
  {
    hide Prepare, Entry, Put, Names, Get;
    var xs, e := Signatures(card).value, Entry(s, Prepare(card).value);
    SignaturesWellFormed(card);
    EntryWellFormed(s, Prepare(card).value);
    AppendWellFormed(xs, e);
    PutGet(card, "signatures", Arr(xs + [e]));
    PrepareIgnoresSignatures(card, Arr(xs + [e]));
  }

  lemma AppendWellFormed(xs: seq<Field>, e: Field)
    requires WellFormed(Arr(xs)) && WellFormed(e)
    ensures WellFormed(Arr(xs + [e]))
  {
    var ys := xs + [e];
    forall i | 0 <= i < |ys| ensures WellFormed(ys[i]) {
      if i < |xs| { assert ys[i] == xs[i]; }
    }
  }

  lemma SignaturesWellFormed(card: Object)
    requires ValidDict(card) && Signatures(card).Some?
    ensures WellFormed<EsNumber>(Arr(Signatures(card).value))
  {
    if "signatures" in Names(card) { LookupWellFormed(card, "signatures"); }
  }

  lemma EntryWellFormed(s: Signer, prepared: Object)
    ensures WellFormed(Entry(s, prepared))
  {
    hide ProtectedText, SigningInput;
    var d := Entry(s, prepared).members;
    assert Names(d)[0] == "protected" && Names(d)[1] == "signature";
  }

  /** A signature verifies over the card it was made for. */
  lemma FreshSignatureVerifies(card: Object, prepared: Object, s: Signer, verify: (Bytes, Bytes) -> bool)
    requires Prepare(card) == Some(prepared)
    requires forall m :: verify(m, s.sign(m))
    ensures Verifies(card, Entry(s, prepared), verify)
  {
    hide Prepare, ProtectedText, SigningInput;
    var d := Entry(s, prepared).members;
    var sig := s.sign(SigningInput(ProtectedText(s), prepared));
    assert Names(d)[0] == "protected" && Names(d)[1] == "signature";
    GetCons(d, "protected");
    GetCons(d, "signature");
    GetCons(d[1..], "signature");
    Base64UrlRoundTrip(sig);
  }

  lemma VerifiesDependsOnPrepared(card: Object, other: Object, entry: Field, verify: (Bytes, Bytes) -> bool)
    requires Prepare(card) == Prepare(other)
    ensures Verifies(card, entry, verify) <==> Verifies(other, entry, verify)
  {
  }

  lemma {:induction false} SignAllSteps(card: Object, ss: seq<Signer>)
    requires ValidDict(card) && SignAll(card, ss).Some?
    ensures ValidDict(SignAll(card, ss).value) && Prepare(SignAll(card, ss).value) == Prepare(card)
    ensures ss != [] ==> Prepare(card).Some? && Signatures(card).Some?
    ensures ss != [] ==>
      Signatures(SignAll(card, ss).value) == Some(Signatures(card).value + Entries(ss, Prepare(card).value))
  {
    hide Prepare, Entry, Signatures, SignCard;
    if ss != [] {
      var before := ss[..|ss| - 1];
      SignAllSteps(card, before);
      SignCardSteps(SignAll(card, before).value, ss[|ss| - 1]);
      var xs, es, e :=
        Signatures(card).value, Entries(before, Prepare(card).value), Entry(ss[|ss| - 1], Prepare(card).value);
      assert xs + es + [e] == xs + (es + [e]);
      if before == [] { assert xs + es == xs; }
    }
  }

  /** The entries that signers append for one prepared card. */
  function Entries(ss: seq<Signer>, prepared: Object): (r: seq<Field>)
    ensures |r| == |ss|
  {
    if ss == [] then [] else Entries(ss[..|ss| - 1], prepared) + [Entry(ss[|ss| - 1], prepared)]
  }

  lemma {:induction false} EntriesAt(ss: seq<Signer>, prepared: Object, i: nat)
    requires i < |ss|
    ensures Entries(ss, prepared)[i] == Entry(ss[i], prepared)
  {
    hide Entry;
    if i < |ss| - 1 { EntriesAt(ss[..|ss| - 1], prepared, i); }
  }

  /** After any sequence of signings every signature made on the way still verifies, and the ones
      that were there before are as valid as they were. */
  lemma EverySignatureStands(card: Object, ss: seq<Signer>, i: nat, verify: (Bytes, Bytes) -> bool)
    requires ValidDict(card) && SignAll(card, ss).Some? && i < |ss|
    requires forall m :: verify(m, ss[i].sign(m))
    ensures var final := SignAll(card, ss).value;
      Signatures(card).Some? && Signatures(final).Some? &&
      |Signatures(final).value| == |Signatures(card).value| + |ss| &&
      Verifies(final, Signatures(final).value[|Signatures(card).value| + i], verify) &&
      forall j, v :: 0 <= j < |Signatures(card).value| ==>
        Signatures(final).value[j] == Signatures(card).value[j] &&
        (Verifies(final, Signatures(card).value[j], v) <==> Verifies(card, Signatures(card).value[j], v))
  {
    hide Prepare, Entry, Signatures, SignAll, Verifies;
    SignAllSteps(card, ss);
    EntriesAt(ss, Prepare(card).value, i);
    var final := SignAll(card, ss).value;
    FreshSignatureVerifies(final, Prepare(card).value, ss[i], verify);
    forall j: int, v | 0 <= j < |Signatures(card).value|
      ensures Verifies(final, Signatures(card).value[j], v) <==> Verifies(card, Signatures(card).value[j], v)
    {
      VerifiesDependsOnPrepared(final, card, Signatures(card).value[j], v);
    }
  }

  lemma Base64HasNoDot(s: string)
    requires Base64UrlText(s)
    ensures '.' !in s
  {
    assert SymbolValue('.') == -1;
  }

  /** What is signed fixes the protected header text and the prepared card up to the order of its
      members. */
  lemma SigningInputUnambiguous(p: string, card: Object, q: string, other: Object)
    requires Base64UrlText(p) && Base64UrlText(q) && ValidDict(card) && ValidDict(other)
    requires Prepare(card).Some? && Prepare(other).Some?
    ensures SigningInput(p, Prepare(card).value) == SigningInput(q, Prepare(other).value) <==>
      p == q && Denote(Obj(Prepare(card).value)) == Denote(Obj(Prepare(other).value))
  {
    var a, b := Prepare(card).value, Prepare(other).value;
    PreparedIsValid(card);
    PreparedIsValid(other);
    CanonicalIffEqualUpToMemberOrder(Obj(a), Obj(b));
    if SigningInput(p, a) == SigningInput(q, b) {
      hide Canon, Prepare, Utf8, Base64Url;
      Utf8Injective(p + "." + PayloadText(a), q + "." + PayloadText(b));
      Base64HasNoDot(p);
      Base64HasNoDot(q);
      SplitAtSeparator('.', p, q, PayloadText(a), PayloadText(b));
      Base64UrlInjective(Utf8(Canon(STYLE, Obj(a))), Utf8(Canon(STYLE, Obj(b))));
      Utf8Injective(Canon(STYLE, Obj(a)), Canon(STYLE, Obj(b)));
    }
  }
}
