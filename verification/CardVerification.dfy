/** Verifying the signatures of an Agent Card: header checks, key selection and the verdict on
    every signature. */
module CardVerification {
  import opened Wrappers
  import opened Encodings
  import opened CanonicalJson
  import opened Dictionaries
  import opened Rfc8785
  import opened PythonJson
  import opened AgentCard
  import opened CardSigning

  /** A trusted key; an empty name or set stands for a JWK member that is absent. */
  datatype Key = Key(kid: string, alg: string, use: string, ops: set<string>, verify: (string, Bytes, Bytes) -> bool)

  /** strict_loads of decoded bytes, the numbers that validate_i_json lets pass, the algorithms that
      policy allows, and the trust store. */
  datatype Verifier = Verifier(
    load: Bytes -> Option<Field>, safe: EsNumber -> bool, allowed: set<string>, keys: seq<Key>)

  datatype Verdict = Valid | SignatureInvalid | KeyUntrusted | Malformed

  predicate Truthy(v: Field) { !EmptyContainer(v) && !DefaultScalar(v) }

  predicate Usable(k: Key, alg: string) {
    (k.alg == "" || k.alg == alg) && (k.use == "" || k.use == "sig") && (k.ops == {} || "verify" in k.ops)
  }

  /** The unprotected header; None where it is no object. */
  function Unprotected(entry: Object): (h: Option<Object>) {
    var h := Get(entry, "header");
    if !Truthy(h) then Some([]) else if h.Obj? then Some(h.members) else None
  }

  /** A header that verify_card goes on with. */
  predicate GoodHeader(v: Verifier, protected: Object, unprotected: Object) {
    && (forall n :: n in Names(protected) ==> n !in Names(unprotected))
    && Get(protected, "alg").Str? && Get(protected, "alg").s != "" && Get(protected, "alg").s in v.allowed
    && Truthy(Get(protected, "kid"))
    && Get(protected, "b64") != Bool(false) && !Truthy(Get(protected, "crit"))
    && "jku" !in Names(unprotected)
  }

  /** The decoded protected header of a signature entry. */
  function Protected(v: Verifier, text: string): (h: Option<Object>) {
    if !Base64UrlText(text) || Base64UrlDecode(text) == None then None
    else
      match v.load(Base64UrlDecode(text).value)
      case Some(Obj(h)) => Some(h)
      case _ => None
  }

  /** The keys that a key id selects. */
  function Candidates(keys: seq<Key>, kid: Field): (r: seq<Key>)
    ensures forall k :: k in r <==> k in keys && Str(k.kid) == kid
  {
    if keys == [] then []
    else
      assert keys == keys[..|keys| - 1] + [keys[|keys| - 1]];
      Candidates(keys[..|keys| - 1], kid) + if Str(keys[|keys| - 1].kid) == kid then [keys[|keys| - 1]] else []
  }

  /** What verify_card finds of one signature over a prepared card. */
  function VerdictOn(v: Verifier, prepared: Object, entry: Field): (r: Verdict) {
    if !entry.Obj? || !Get(entry.members, "protected").Str? then Malformed
    else
      var text := Get(entry.members, "protected").s;
      match (Protected(v, text), Unprotected(entry.members))
      case (Some(h), Some(u)) =>
        if !GoodHeader(v, h, u) then Malformed
        else if Candidates(v.keys, Get(h, "kid")) == [] then KeyUntrusted
        else
          (match Get(entry.members, "signature")
           case Str(sig) =>
             if !Base64UrlText(sig) || Base64UrlDecode(sig) == None then Malformed
             else if SomeKeyVerifies(
                 Candidates(v.keys, Get(h, "kid")), Get(h, "alg").s, SigningInput(text, prepared),
                 Base64UrlDecode(sig).value)
             then Valid else SignatureInvalid
           case _ => Malformed)
      case _ => Malformed
  }

  predicate SomeKeyVerifies(keys: seq<Key>, alg: string, message: Bytes, signature: Bytes) {
    exists i :: 0 <= i < |keys| && Usable(keys[i], alg) && keys[i].verify(alg, message, signature)
  }

  // ---- What the verdicts mean ----

  /** Whether the value counts as nothing to Python's `not`. */
  ghost predicate Nothing(x: Field) {
    x == Null || x == Bool(false) || x == Num(Zero) || x == Str("") || x == Arr([]) || x == Obj([])
  }

  /** The entry's protected header reads as `h`, names an allowed algorithm and a key, asks for
      nothing that is refused, and shares no name with an unprotected header without jku. */
  ghost predicate Passes(v: Verifier, entry: Field, h: Object) {
    && entry.Obj? && Get(entry.members, "protected").Str?
    && var p := Get(entry.members, "protected").s;
    && Base64UrlText(p) && Base64UrlDecode(p).Some? && v.load(Base64UrlDecode(p).value) == Some(Obj(h))
    && Get(h, "alg").Str? && Get(h, "alg").s != "" && Get(h, "alg").s in v.allowed && !Nothing(Get(h, "kid"))
    && Get(h, "b64") != Bool(false) && Nothing(Get(h, "crit"))
    && var u := Get(entry.members, "header");
    && (Nothing(u) || (u.Obj? && "jku" !in Names(u.members) && forall n :: n in Names(h) ==> n !in Names(u.members)))
  }

  /** A trusted key of the header's key id that may be used for its algorithm verifies the entry's
      decoded signature over the entry's protected text and the prepared card. */
  ghost predicate VerifiedBy(prepared: Object, entry: Object, h: Object, k: Key)
    requires Get(entry, "protected").Str? && Get(h, "alg").Str?
  {
    var p, s, alg := Get(entry, "protected").s, Get(entry, "signature"), Get(h, "alg").s;
    && Get(h, "kid") == Str(k.kid)
    && (k.alg == "" || k.alg == alg) && (k.use == "" || k.use == "sig") && (k.ops == {} || "verify" in k.ops)
    && s.Str? && Base64UrlText(s.s) && Base64UrlDecode(s.s).Some?
    && k.verify(alg, SigningInput(p, prepared), Base64UrlDecode(s.s).value)
  }

  ghost predicate Proven(v: Verifier, prepared: Object, entry: Field) {
    exists h, k :: Passes(v, entry, h) && k in v.keys && VerifiedBy(prepared, entry.members, h, k)
  }

  ghost predicate Decodes(s: Field) { s.Str? && Base64UrlText(s.s) && Base64UrlDecode(s.s).Some? }

  /** A signature is valid exactly when a trusted key proves it; its key is untrusted exactly when
      its header passes and no trusted key has its key id; and it is invalid exactly when it can be
      read, some trusted key has the key id, and none of them proves it. */
  lemma VerdictMeans(v: Verifier, prepared: Object, entry: Field)
    ensures VerdictOn(v, prepared, entry) == Valid <==> Proven(v, prepared, entry)
    ensures VerdictOn(v, prepared, entry) == KeyUntrusted <==>
      exists h :: Passes(v, entry, h) && forall k :: k in v.keys ==> Get(h, "kid") != Str(k.kid)
    ensures VerdictOn(v, prepared, entry) == SignatureInvalid <==>
      !Proven(v, prepared, entry) &&
      exists h, k :: Passes(v, entry, h) && k in v.keys && Get(h, "kid") == Str(k.kid) &&
        Decodes(Get(entry.members, "signature"))
  {
    hide Passes, GoodHeader, Protected, Unprotected, Candidates, SomeKeyVerifies, SigningInput, Base64UrlDecode, Get;
    forall h { PassesIff(v, entry, h); }
    if entry.Obj? && Get(entry.members, "protected").Str? {
      var text := Get(entry.members, "protected").s;
      var o := Protected(v, text);
      if o.Some? && Passes(v, entry, o.value) {
        GoodAlg(v, entry, o.value);
        ProvenIff(v, prepared, entry, o.value);
        var keys := Candidates(v.keys, Get(o.value, "kid"));
        assert keys == [] <==> forall k :: k in v.keys ==> Get(o.value, "kid") != Str(k.kid) by {
          if keys != [] { assert keys[0] in keys; }
        }
      }
    }
  }

  lemma PassesIff(v: Verifier, entry: Field, h: Object)
    ensures Passes(v, entry, h) <==>
      && entry.Obj? && Get(entry.members, "protected").Str?
      && Protected(v, Get(entry.members, "protected").s) == Some(h)
      && Unprotected(entry.members).Some? && GoodHeader(v, h, Unprotected(entry.members).value)
  {
    hide Get, Base64UrlDecode;
    NoNames();
  }

  lemma GoodAlg(v: Verifier, entry: Field, h: Object)
    requires Passes(v, entry, h)
    ensures entry.Obj? && Get(entry.members, "protected").Str? && Get(h, "alg").Str?
  {
    hide Get, Base64UrlDecode;
  }

  lemma ProvenIff(v: Verifier, prepared: Object, entry: Field, h: Object)
    requires Passes(v, entry, h) && entry.Obj? && Get(entry.members, "protected").Str? && Get(h, "alg").Str?
    ensures var sig, alg := Get(entry.members, "signature"), Get(h, "alg").s;
      var keys := Candidates(v.keys, Get(h, "kid"));
      Proven(v, prepared, entry) <==>
      Decodes(sig) && SomeKeyVerifies(
        keys, alg, SigningInput(Get(entry.members, "protected").s, prepared), Base64UrlDecode(sig.s).value)
  {
    hide Get, Base64UrlDecode, SigningInput, Candidates, GoodHeader, Unprotected;
  }

  function Verdicts(v: Verifier, prepared: Object, entries: seq<Field>): (r: seq<Verdict>)
    ensures |r| == |entries| && forall i :: 0 <= i < |r| ==> r[i] == VerdictOn(v, prepared, entries[i])
  {
    seq(|entries|, i requires 0 <= i < |entries| => VerdictOn(v, prepared, entries[i]))
  }

  /** The signatures that verify_card goes through; None for a value that is no list. */
  function Listed(card: Object): (r: Option<seq<Field>>) {
    var xs := Get(card, "signatures");
    if !Truthy(xs) then Some([]) else if xs.Arr? then Some(xs.items) else None
  }

  lemma ListedSignatures(card: Object)
    requires Signatures(card).Some?
    ensures Listed(card) == Signatures(card)
  {
  }

  function CountValid(rs: seq<Verdict>): (n: nat) {
    if rs == [] then 0 else CountValid(rs[..|rs| - 1]) + if rs[|rs| - 1] == Valid then 1 else 0
  }

  lemma NoneCounted()
    ensures CountValid([]) == 0
  {
  }

  lemma CountOneMore(rs: seq<Verdict>, r: Verdict)
    ensures CountValid(rs + [r]) == CountValid(rs) + if r == Valid then 1 else 0
  {
    assert (rs + [r])[..|rs|] == rs;
  }

  /** The entries, by their place, that some trusted key proves. */
  ghost function ProvenEntries(v: Verifier, prepared: Object, entries: seq<Field>): (r: set<nat>) {
    set i: nat | i < |entries| && Proven(v, prepared, entries[i])
  }

  lemma {:induction false} CountsProven(v: Verifier, prepared: Object, entries: seq<Field>)
    ensures CountValid(Verdicts(v, prepared, entries)) == |ProvenEntries(v, prepared, entries)|
  {
    hide VerdictOn, Proven, ProvenEntries;
    if entries == [] {
      NothingProven(v, prepared);
    } else {
      var n := |entries| - 1;
      CountsProven(v, prepared, entries[..n]);
      assert Verdicts(v, prepared, entries)[..n] == Verdicts(v, prepared, entries[..n]);
      VerdictMeans(v, prepared, entries[n]);
      ProvenSnoc(v, prepared, entries);
    }
  }

  lemma NothingProven(v: Verifier, prepared: Object)
    ensures ProvenEntries(v, prepared, []) == {}
  {
  }

  lemma ProvenSnoc(v: Verifier, prepared: Object, entries: seq<Field>)
    requires entries != []
    ensures var n := |entries| - 1;
      |ProvenEntries(v, prepared, entries)| ==
      |ProvenEntries(v, prepared, entries[..n])| + if Proven(v, prepared, entries[n]) then 1 else 0
  {
    hide Proven;
    var n := |entries| - 1;
    var rest := ProvenEntries(v, prepared, entries[..n]);
    assert n !in rest;
    assert ProvenEntries(v, prepared, entries) == rest + if Proven(v, prepared, entries[n]) then {n} else {};
  }

  /** Where no key verifies anything, no signature counts. */
  lemma RejectingKeysProveNothing(v: Verifier, prepared: Object, entries: seq<Field>)
    requires forall k, alg, m, s :: k in v.keys ==> !k.verify(alg, m, s)
    ensures ProvenEntries(v, prepared, entries) == {}
  {
    hide Proven;
    forall i: nat | i < |entries| ensures !Proven(v, prepared, entries[i]) { NotProven(v, prepared, entries[i]); }
  }

  lemma NotProven(v: Verifier, prepared: Object, entry: Field)
    requires forall k, alg, m, s :: k in v.keys ==> !k.verify(alg, m, s)
    ensures !Proven(v, prepared, entry)
  {
    hide SigningInput, Base64UrlDecode, Get;
  }

  /** One verdict for every signature, and how many are valid; None where the card cannot be
      prepared or its signatures are no list. */
  method VerifyCard(v: Verifier, card: Object) returns (r: Option<(seq<Verdict>, nat)>)
    requires ValidDict(card)
    ensures r.Some? <==>
      Prepare(card).Some? && Interoperable(v.safe, Obj(Prepare(card).value)) && Listed(card).Some?
    ensures r.Some? ==> r.value.0 == Verdicts(v, Prepare(card).value, Listed(card).value)
    ensures r.Some? ==> r.value.1 == |ProvenEntries(v, Prepare(card).value, Listed(card).value)|
  {
    hide VerdictOn, Listed, Prepare, Verdicts, CountValid, Interoperable;
    NoneCounted();
    var prepared := PrepareAgentCard(card, v.safe);
    var entries := Listed(card);
    if prepared == None || entries == None { return None; }
    var results: seq<Verdict>, valid := [], 0;
    ghost var all := Verdicts(v, prepared.value, entries.value);
    for i := 0 to |entries.value|
      invariant results == all[..i] && valid == CountValid(results)
    {
      var verdict := VerdictOn(v, prepared.value, entries.value[i]);
      CountOneMore(results, verdict);
      assert all[i] == verdict;
      results := results + [verdict];
      if verdict == Valid { valid := valid + 1; }
    }
    assert all[..|all|] == all;
    CountsProven(v, prepared.value, entries.value);
    r := Some((results, valid));
  }

  // ---- Signed cards pass ----

  /** Reading a protected header gives back what was written, up to the order of its members. */
  ghost predicate Reads(v: Verifier) {
    forall d: Object :: ValidDict(d) ==> ReadsBack(d, v.load(Utf8(Canon(AsciiStyle(NumberToString), Obj(d)))))
  }

  ghost predicate ReadsBack(d: Object, r: Option<Field>) {
    r.Some? && WellFormed(r.value) && Denote(r.value) == Denote(Obj(d))
  }

  /** Policy allows the signer's algorithm, and the trust store holds a usable key for it. */
  ghost predicate Trusts(v: Verifier, s: Signer) {
    && s.alg != "" && s.kid != "" && s.alg in v.allowed
    && exists k :: k in v.keys && k.kid == s.kid && Usable(k, s.alg) && forall m :: k.verify(s.alg, m, s.sign(m))
  }

  lemma ProtectedHeaderIsValid(s: Signer)
    ensures ValidDict(ProtectedHeader(s))
    ensures forall n :: n in Names(ProtectedHeader(s)) ==> n in {"alg", "typ", "kid", "jku"}
    ensures Get(ProtectedHeader(s), "alg") == Str(s.alg) && Get(ProtectedHeader(s), "kid") == Str(s.kid)
    ensures "alg" in Names(ProtectedHeader(s)) && "kid" in Names(ProtectedHeader(s))
  {
    hide Names, Get, WellFormed, Distinct;
    NoNames();
    EmptyIsValid();
    var j := if s.jku.Some? && s.jku.value != "" then [Member("jku", Str(s.jku.value))] else [];
    if j != [] { AddMember("jku", s.jku.value, []); }
    assert j == [] || j == [Member("jku", Str(s.jku.value))] + [];
    AddMember("kid", s.kid, j);
    AddMember("typ", "JOSE", [Member("kid", Str(s.kid))] + j);
    AddMember("alg", s.alg, [Member("typ", Str("JOSE"))] + ([Member("kid", Str(s.kid))] + j));
    assert ProtectedHeader(s) ==
      [Member("alg", Str(s.alg))] + ([Member("typ", Str("JOSE"))] + ([Member("kid", Str(s.kid))] + j));
  }

  lemma AddMember(k: string, t: string, d: Object)
    requires ValidDict(d) && k !in Names(d)
    ensures ValidDict([Member(k, Str(t))] + d)
    ensures forall n :: n in Names([Member(k, Str(t))] + d) <==> n == k || n in Names(d)
    ensures forall n :: Get([Member(k, Str(t))] + d, n) == if n == k then Str(t) else Get(d, n)
  {
    var e := [Member(k, Str(t))] + d;
    assert e[1..] == d;
    ValidCons(Member(k, Str(t)), d);
    assert Names(e) == [k] + Names(d);
    forall n ensures Get(e, n) == if n == k then Str(t) else Get(d, n) { GetCons(e, n); }
  }

  /** Two dictionaries of one meaning give one string to a key. */
  lemma SameString(d: Object, e: Object, k: string)
    requires Denote(Obj(d)) == Denote(Obj(e))
    ensures k in Names(d) <==> k in Names(e)
    ensures k in Names(d) && Get(d, k).Str? ==> Get(e, k) == Get(d, k)
  {
    hide Names, Get, Denote;
    MeaningOfKey(d, k);
    MeaningOfKey(e, k);
    if Get(d, k).Str? && Denote(Get(d, k)) == Denote(Get(e, k)) { SameText(Get(d, k), Get(e, k)); }
  }

  lemma SameText(v: Field, w: Field)
    requires v.Str? && Denote(v) == Denote(w)
    ensures v == w
  {
  }

  lemma HeaderReadsBack(v: Verifier, s: Signer)
    requires Reads(v)
    ensures var h := Protected(v, ProtectedText(s));
      h.Some? && Get(h.value, "alg") == Str(s.alg) && Get(h.value, "kid") == Str(s.kid) &&
      forall n :: n in Names(h.value) ==> n in {"alg", "typ", "kid", "jku"}
  {
    hide Canon, Utf8, Base64Url, Denote, WellFormed, Get, Names;
    var d := ProtectedHeader(s);
    ProtectedHeaderIsValid(s);
    var written := Utf8(Canon(AsciiStyle(NumberToString), Obj(d)));
    Base64UrlRoundTrip(written);
    assert ReadsBack(d, v.load(written));
    var read := v.load(written).value;
    OnlyObjectsMeanObjects(read, d);
    SameString(d, read.members, "alg");
    SameString(d, read.members, "kid");
    forall n | n in Names(read.members) ensures n in {"alg", "typ", "kid", "jku"} { SameString(d, read.members, n); }
  }

  lemma OnlyObjectsMeanObjects(v: Field, d: Object)
    requires Denote(v) == Denote(Obj(d))
    ensures v.Obj?
  {
  }

  lemma EntryParts(s: Signer, prepared: Object)
    ensures Entry(s, prepared).Obj?
    ensures var d := Entry(s, prepared).members;
      Get(d, "protected") == Str(ProtectedText(s)) && Get(d, "header") == Null &&
      Get(d, "signature") == Str(Base64Url(s.sign(SigningInput(ProtectedText(s), prepared))))
  {
    hide ProtectedText, SigningInput;
    var d := Entry(s, prepared).members;
    assert Names(d)[0] == "protected" && Names(d)[1] == "signature";
    GetCons(d, "protected");
    GetCons(d, "signature");
    GetCons(d[1..], "signature");
  }

  /** Under a policy and trust store that accept the signer, its signature is valid. */
  lemma FreshSignatureIsValid(v: Verifier, prepared: Object, s: Signer)
    requires Reads(v) && Trusts(v, s)
    ensures VerdictOn(v, prepared, Entry(s, prepared)) == Valid
  {
    hide Reads, Protected, ProtectedText, SigningInput, Base64Url, Names, Get, Entry;
    EntryParts(s, prepared);
    HeaderReadsBack(v, s);
    var h := Protected(v, ProtectedText(s)).value;
    AbsentIsNull(h, "b64");
    AbsentIsNull(h, "crit");
    assert GoodHeader(v, h, []) by { NoNames(); }
    var message := SigningInput(ProtectedText(s), prepared);
    var signature := s.sign(message);
    Base64UrlRoundTrip(signature);
    var k :| k in v.keys && k.kid == s.kid && Usable(k, s.alg) && forall m :: k.verify(s.alg, m, s.sign(m));
    var candidates := Candidates(v.keys, Get(h, "kid"));
    assert k in candidates;
    var i :| 0 <= i < |candidates| && candidates[i] == k;
    assert SomeKeyVerifies(candidates, s.alg, message, signature);
  }

  lemma AbsentIsNull(d: Object, k: string)
    ensures k !in Names(d) ==> Get(d, k) == Null
  {
  }

  lemma NoNames()
    ensures Names<EsNumber>([]) == []
  {
  }

  /** After any sequence of signings, verification gives the earlier signatures the verdicts they
      had, and finds every new one valid whose signer policy and trust store accept. */
  lemma SigningKeepsVerdicts(v: Verifier, card: Object, ss: seq<Signer>)
    requires Reads(v) && ValidDict(card) && SignAll(card, ss).Some? && ss != []
    ensures var final := SignAll(card, ss).value;
      Prepare(card).Some? && Prepare(final).Some? && Listed(card).Some? && Listed(final).Some? &&
      var before := Verdicts(v, Prepare(card).value, Listed(card).value);
      var after := Verdicts(v, Prepare(final).value, Listed(final).value);
      |after| == |before| + |ss| && after[..|before|] == before &&
      forall i :: 0 <= i < |ss| && Trusts(v, ss[i]) ==> after[|before| + i] == Valid
  {
    hide Prepare, Entry, Signatures, SignAll, VerdictOn, Trusts, Reads, Entries, Listed;
    SignAllSteps(card, ss);
    var final, prepared := SignAll(card, ss).value, Prepare(card).value;
    ListedSignatures(card);
    ListedSignatures(final);
    var before := Verdicts(v, prepared, Signatures(card).value);
    var after := Verdicts(v, Prepare(final).value, Signatures(final).value);
    forall i | 0 <= i < |ss| && Trusts(v, ss[i]) ensures after[|before| + i] == Valid {
      EntriesAt(ss, prepared, i);
      FreshSignatureIsValid(v, prepared, ss[i]);
    }
  }
}
