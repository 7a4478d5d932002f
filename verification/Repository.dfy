/** The evidence repository: objects, evidence rows, legal holds and the audit file. */
module Repository {
  import opened Wrappers
  import opened Encodings
  import opened CanonicalJson
  import opened Dictionaries
  import opened EncryptedObjects
  import AuditLog

  datatype Classification = Public | Internal | Confidential | Restricted | Secret

  function Rank(c: Classification): (r: nat) {
    match c
    case Public => 0
    case Internal => 1
    case Confidential => 2
    case Restricted => 3
    case Secret => 4
  }

  /** The classes in their order, and their names. */
  lemma ClassesInOrder()
    ensures Rank(Public) < Rank(Internal) < Rank(Confidential) < Rank(Restricted) < Rank(Secret)
    ensures ClassName(Public) == "public" && ClassName(Internal) == "internal"
    ensures ClassName(Confidential) == "confidential"
    ensures ClassName(Restricted) == "restricted" && ClassName(Secret) == "secret"
  {
  }

  function ClassName(c: Classification): (s: string) {
    match c
    case Public => "public"
    case Internal => "internal"
    case Confidential => "confidential"
    case Restricted => "restricted"
    case Secret => "secret"
  }

  datatype ObjectRow = ObjectRow(size: nat, storedPath: string, encrypted: bool, storage: Classification)

  datatype EvidenceRow = EvidenceRow(
    caseId: string, sha256: string, name: string, classification: Classification, retentionUntil: Option<int>)

  datatype HoldRow = HoldRow(
    caseId: string, evidenceId: Option<string>, reason: string, createdBy: string, releasedBy: Option<string>)

  /** The four tables, the object files by path, and the audit file. */
  datatype Repo<+N> = Repo(
    objects: map<string, ObjectRow>,
    files: map<string, Bytes>,
    evidence: map<string, EvidenceRow>,
    holds: map<string, HoldRow>,
    audit: seq<Line<N>>)

  /** The hash and number writer, and the repository master key if there is one. */
  datatype Env<!N> = Env(primitives: AuditLog.Primitives<N>, key: Option<Aead>)

  datatype Error =
    | BadClassification | KeyMissing | SealFailed(sealing: SealError)
    | NoSuchEvidence | NoSuchHold | MissingFile | UnknownFormat | OpenFailed(opening: OpenError)
    | AuditUnreadable

  const CHUNK: nat := 4194304

  /** The ASCII bytes of "AIDFIR1". */
  const MAGIC_V1: Bytes := [65, 73, 68, 70, 73, 82, 49]

  function Slice(b: Bytes, i: nat, j: nat): (r: Bytes)
    requires i <= j
  {
    if |b| <= i then [] else if |b| <= j then b[i..] else b[i..j]
  }

  /** objects/sha256/<first two digits>/<digest>, relative to the objects directory. */
  function ObjectPath(digest: string): (p: string) {
    (if |digest| <= 2 then digest else digest[..2]) + "/" + digest
  }

  lemma ObjectPathInjective(d: string, e: string)
    requires ObjectPath(d) == ObjectPath(e)
    ensures d == e
  {
    var p, q := ObjectPath(d), ObjectPath(e);
    assert |d| == |e|;
    assert d == p[|p| - |d|..] && e == q[|q| - |e|..];
  }

  // ---- Audit details ----

  function IngestDetails<N>(env: Env<N>, r: EvidenceRow, evidenceId: string, size: nat): (d: Dict<N>) {
    [Member("case_id", Str(r.caseId)), Member("evidence_id", Str(evidenceId)), Member("sha256", Str(r.sha256)),
     Member("logical_name", Str(r.name)), Member("classification", Str(ClassName(r.classification))),
     Member("size", Num(env.primitives.fromNat(size)))]
  }

  function ExtractDetails<N>(r: EvidenceRow, evidenceId: string, destination: string): (d: Dict<N>) {
    [Member("case_id", Str(r.caseId)), Member("evidence_id", Str(evidenceId)), Member("sha256", Str(r.sha256)),
     Member("destination", Str(destination))]
  }

  function HoldDetails<N>(holdId: string, h: HoldRow): (d: Dict<N>) {
    [Member("hold_id", Str(holdId)), Member("case_id", Str(h.caseId)),
     Member("evidence_id", if h.evidenceId.Some? then Str(h.evidenceId.value) else Null),
     Member("reason", Str(h.reason))]
  }

  function ReleaseDetails<N>(holdId: string): (d: Dict<N>) { [Member("hold_id", Str(holdId))] }

  // ---- The operations, as functions of the state ----

  /** What a call leaves behind and what it returns or raises. */
  datatype After<+N, +T> = After(repo: Repo<N>, result: Result<T, Error>)

  function Audit<N, T>(
      env: Env<N>, s: Repo<N>, time: string, actor: string, action: string, details: Dict<N>, value: T)
    : (a: After<N, T>)
  {
    match AuditLog.Audited(env.primitives, s.audit, time, actor, action, details)
    case None => After(s, Err(AuditUnreadable))
    case Some(lines) => After(s.(audit := lines), Ok(value))
  }

  /** The file add_file stores for new content, and whether it is encrypted. */
  function Packed<N>(
      env: Env<N>, encrypt: Option<bool>, prefix: Bytes, content: Bytes): (r: Result<(Bytes, bool), Error>)
  {
    var useEncrypt := if encrypt == None then env.key.Some? else encrypt.value;
    if !useEncrypt then Ok((content, false))
    else if env.key == None then Err(KeyMissing)
    else
      match Encrypt(env.key.value, env.primitives.sha256(content), prefix, CHUNK, content)
      case Err(e) => Err(SealFailed(e))
      case Ok(stream) => Ok((stream, true))
  }

  function Upgraded(row: ObjectRow, c: Classification): (r: ObjectRow) {
    if Rank(c) > Rank(row.storage) then row.(storage := c) else row
  }

  /** The object and file tables with `content` in them. */
  function WithObject<N>(
      env: Env<N>, s: Repo<N>, content: Bytes, c: Classification, encrypt: Option<bool>, prefix: Bytes)
    : (r: Result<Repo<N>, Error>)
  {
    var digest := env.primitives.sha256(content);
    if digest in s.objects then Ok(s.(objects := s.objects[digest := Upgraded(s.objects[digest], c)]))
    else
      match Packed(env, encrypt, prefix, content)
      case Err(e) => Err(e)
      case Ok((file, encrypted)) =>
        var path := ObjectPath(digest);
        Ok(s.(files := s.files[path := file],
              objects := s.objects[digest := ObjectRow(|content|, path, encrypted, c)]))
  }

  /** What the caller of add_file supplies; a classification that is no valid name is None. */
  datatype Ingest = Ingest(
    caseId: string, content: Bytes, name: string, actor: string, classification: Option<Classification>,
    retentionUntil: Option<int>, encrypt: Option<bool>)

  /** add_file; the evidence id, nonce prefix and time are the generator's and the clock's. */
  function AddFile<N>(
      env: Env<N>, s: Repo<N>, i: Ingest, evidenceId: string, prefix: Bytes, time: string): (a: After<N, string>)
  {
    if i.classification == None then After(s, Err(BadClassification))
    else
      var c := i.classification.value;
      match WithObject(env, s, i.content, c, i.encrypt, prefix)
      case Err(e) => After(s, Err(e))
      case Ok(t) =>
        var row := EvidenceRow(i.caseId, env.primitives.sha256(i.content), i.name, c, i.retentionUntil);
        Audit(env, t.(evidence := t.evidence[evidenceId := row]), time, i.actor, "evidence_ingested",
              IngestDetails(env, row, evidenceId, |i.content|), evidenceId)
  }

  /** Reading a legacy AIDFIR1 object. */
  function OpenLegacy(a: Aead, sha256: Bytes -> string, raw: Bytes, digest: string): (r: Result<Bytes, OpenError>) {
    match a.open(Slice(raw, 7, 19), Slice(raw, 19, if |raw| < 19 then 19 else |raw|), Utf8(digest))
    case None => Err(InvalidTag)
    case Some(plain) => if sha256(plain) != digest then Err(OpenError.DigestMismatch) else Ok(plain)
  }

  /** The bytes extract writes for an object. */
  function ReadObject<N>(env: Env<N>, s: Repo<N>, digest: string): (r: Result<Bytes, Error>)
    requires digest in s.objects
  {
    var row, sha := s.objects[digest], env.primitives.sha256;
    if row.storedPath !in s.files then Err(MissingFile)
    else
      var file := s.files[row.storedPath];
      if !row.encrypted then (if sha(file) != digest then Err(OpenFailed(OpenError.DigestMismatch)) else Ok(file))
      else if env.key == None then Err(KeyMissing)
      else
        var outcome: Option<Result<Bytes, OpenError>> :=
          if Slice(file, 0, 7) == MAGIC then Some(Decrypt(env.key.value, sha, file, digest))
          else if Slice(file, 0, 7) == MAGIC_V1 then Some(OpenLegacy(env.key.value, sha, file, digest))
          else None;
        match outcome
        case None => Err(UnknownFormat)
        case Some(Err(e)) => Err(OpenFailed(e))
        case Some(Ok(plain)) => Ok(plain)
  }

  /** "AIDFIR1", a nonce of twelve bytes, and the whole file sealed under it for its digest. */
  ghost predicate LegacyForm(a: Aead, digest: string, file: Bytes, out: Bytes) {
    exists nonce ::
      |nonce| == 12 && file == Utf8("AIDFIR1") + nonce + a.seal(nonce, out, Utf8(digest))
  }

  /** The object's file is there and holds `out` in one of the three forms. */
  ghost predicate Holds<N>(env: Env<N>, s: Repo<N>, digest: string, out: Bytes)
    requires digest in s.objects && (env.key.Some? ==> Laws(env.key.value))
  {
    var row := s.objects[digest];
    && env.primitives.sha256(out) == digest && row.storedPath in s.files
    && var file := s.files[row.storedPath];
    if !row.encrypted then file == out
    else
      env.key.Some? &&
      (WellMade(env.key.value, digest, file, out) || LegacyForm(env.key.value, digest, file, out))
  }

  lemma LegacyMagic()
    ensures Utf8("AIDFIR1") == MAGIC_V1
  {
    hide Utf8;
    Utf8Ascii("AIDFIR1");
  }

  lemma OpensLegacyIff(a: Aead, sha256: Bytes -> string, file: Bytes, digest: string, out: Bytes)
    requires Laws(a)
    ensures Slice(file, 0, 7) == MAGIC_V1 && OpenLegacy(a, sha256, file, digest) == Ok(out) <==>
      sha256(out) == digest && LegacyForm(a, digest, file, out)
  {
    LegacyMagic();
    hide Utf8;
    if Slice(file, 0, 7) == MAGIC_V1 && OpenLegacy(a, sha256, file, digest) == Ok(out) {
      var nonce := Slice(file, 7, 19);
      var sealed := a.seal(nonce, out, Utf8(digest));
      assert |sealed| == |out| + TAG;
      assert file == MAGIC_V1 + nonce + sealed;
    }
    if LegacyForm(a, digest, file, out) {
      var nonce :| |nonce| == 12 && file == MAGIC_V1 + nonce + a.seal(nonce, out, Utf8(digest));
      assert file[..7] == MAGIC_V1 && file[7..19] == nonce && file[19..] == a.seal(nonce, out, Utf8(digest));
    }
  }

  /** An object is read as `out` exactly when it has that digest and the file holds it. */
  lemma ReadsIff<N>(env: Env<N>, s: Repo<N>, digest: string, out: Bytes)
    requires digest in s.objects && (env.key.Some? ==> Laws(env.key.value))
    ensures ReadObject(env, s, digest) == Ok(out) <==> Holds(env, s, digest, out)
  {
    hide Decrypt, OpenLegacy, WellMade, LegacyForm, Laws;
    var row, sha := s.objects[digest], env.primitives.sha256;
    if row.storedPath in s.files && env.key.Some? {
      var a, file := env.key.value, s.files[row.storedPath];
      OpensLegacyIff(a, sha, file, digest, out);
      DecryptsIff(a, sha, file, digest, out);
      if WellMade(a, digest, file, out) { WellMadeStarts(a, digest, file, out); }
    }
  }

  lemma WellMadeStarts(a: Aead, digest: string, file: Bytes, out: Bytes)
    requires Laws(a) && WellMade(a, digest, file, out)
    ensures Slice(file, 0, 7) == MAGIC
  {
    hide Sealed;
  }

  function Extract<N>(
      env: Env<N>, s: Repo<N>, evidenceId: string, destination: string, actor: string, time: string)
    : (a: After<N, Bytes>)
  {
    if evidenceId !in s.evidence || s.evidence[evidenceId].sha256 !in s.objects then After(s, Err(NoSuchEvidence))
    else
      var row := s.evidence[evidenceId];
      match ReadObject(env, s, row.sha256)
      case Err(e) => After(s, Err(e))
      case Ok(plain) =>
        Audit(env, s, time, actor, "evidence_extracted", ExtractDetails(row, evidenceId, destination), plain)
  }

  function CreateHold<N>(
      env: Env<N>, s: Repo<N>, caseId: string, evidenceId: Option<string>, reason: string, actor: string,
      holdId: string, time: string)
    : (a: After<N, string>)
  {
    var h := HoldRow(caseId, evidenceId, reason, actor, None);
    Audit(env, s.(holds := s.holds[holdId := h]), time, actor, "legal_hold_created", HoldDetails(holdId, h), holdId)
  }

  function ReleaseHold<N>(env: Env<N>, s: Repo<N>, holdId: string, actor: string, time: string): (a: After<N, ()>) {
    if holdId !in s.holds then After(s, Err(NoSuchHold))
    else if s.holds[holdId].releasedBy.Some? then After(s, Ok(()))
    else
      var h := s.holds[holdId].(releasedBy := Some(actor));
      Audit(env, s.(holds := s.holds[holdId := h]), time, actor, "legal_hold_released", ReleaseDetails(holdId), ())
  }

  // ---- verify ----

  /** Whether verify reports nothing about an object; without a key, encrypted ones are skipped. */
  predicate ObjectPasses<N>(env: Env<N>, s: Repo<N>, digest: string)
    requires digest in s.objects
  {
    var row := s.objects[digest];
    && row.storedPath in s.files
    && ((row.encrypted && env.key == None) || ReadObject(env, s, digest).Ok?)
  }

  datatype ObjectFinding =
    | MissingObject | ObjectDigestMismatch(actual: string) | EncryptedPlaintextDigestMismatch | DecryptFailure

  /** What verify reports about one object; without a key it skips the encrypted ones. */
  function Inspect<N>(env: Env<N>, s: Repo<N>, digest: string): (f: Option<ObjectFinding>)
    requires digest in s.objects
  {
    var row, sha := s.objects[digest], env.primitives.sha256;
    if row.storedPath !in s.files then Some(MissingObject)
    else
      var file := s.files[row.storedPath];
      if !row.encrypted then (if sha(file) != digest then Some(ObjectDigestMismatch(sha(file))) else None)
      else if env.key == None then None
      else if Slice(file, 0, 7) == MAGIC then
        if Decrypt(env.key.value, sha, file, digest).Ok? then None else Some(DecryptFailure)
      else if Slice(file, 0, 7) == MAGIC_V1 then
        match OpenLegacy(env.key.value, sha, file, digest)
        case Ok(_) => None
        case Err(e) => Some(if e == OpenError.DigestMismatch then EncryptedPlaintextDigestMismatch else DecryptFailure)
      else Some(DecryptFailure)
  }

  lemma InspectIff<N>(env: Env<N>, s: Repo<N>, digest: string)
    requires digest in s.objects
    ensures Inspect(env, s, digest) == None <==> ObjectPasses(env, s, digest)
  {
    hide Decrypt, OpenLegacy;
  }

  /** The result of verify: the objects and audit events it counted, and its findings. */
  datatype Report = Report(
    objects: nat, auditEvents: nat, findings: map<string, ObjectFinding>, audit: Option<(nat, AuditLog.Break)>)

  predicate Valid<N(==)>(env: Env<N>, s: Repo<N>) {
    && (forall d :: d in s.objects ==> ObjectPasses(env, s, d))
    && AuditLog.Check(env.primitives, s.audit).Chained?
  }

  function AuditFinding(o: AuditLog.Outcome): (f: Option<(nat, AuditLog.Break)>) {
    if o.Broken? then Some((o.line, o.why)) else None
  }

  lemma NoFindings<N>(env: Env<N>, s: Repo<N>, findings: map<string, ObjectFinding>)
    requires forall d :: d in findings <==> d in s.objects && Inspect(env, s, d) != None
    ensures findings == map[] <==> forall d :: d in s.objects ==> Inspect(env, s, d) == None
  {
    hide Inspect;
    if d :| d in s.objects && Inspect(env, s, d) != None { assert d in findings; }
    if findings != map[] {
      assert exists d :: d in findings;
    }
  }

  // ---- Holds and disposition ----

  ghost predicate CaseHeld<N>(s: Repo<N>, caseId: string) {
    exists h ::
      h in s.holds && s.holds[h].releasedBy == None && s.holds[h].evidenceId == None && s.holds[h].caseId == caseId
  }

  ghost predicate EvidenceHeld<N>(s: Repo<N>, evidenceId: string) {
    exists h :: h in s.holds && s.holds[h].releasedBy == None && s.holds[h].evidenceId == Some(evidenceId)
  }

  /** An expired evidence row that no active hold covers. */
  ghost predicate Eligible<N>(s: Repo<N>, e: string, now: int) {
    e in s.evidence && Expired(s.evidence[e], now) && !CaseHeld(s, s.evidence[e].caseId) && !EvidenceHeld(s, e)
  }

  predicate Expired(row: EvidenceRow, now: int) { row.retentionUntil.Some? && row.retentionUntil.value <= now }

  datatype Blocked = CaseLegalHold | EvidenceLegalHold

  // ---- The repository as a class ----

  class RepositoryStore<N(==)> {
    const env: Env<N>
    var objects: map<string, ObjectRow>
    var files: map<string, Bytes>
    var evidence: map<string, EvidenceRow>
    var holds: map<string, HoldRow>
    var audit: seq<Line<N>>

    function State(): (s: Repo<N>)
      reads this
    {
      Repo(objects, files, evidence, holds, audit)
    }

    constructor (env: Env<N>)
      ensures this.env == env && State() == Empty<N>()
    {
      this.env := env;
      objects, files, evidence, holds, audit := map[], map[], map[], map[], [];
    }

    method AppendAudit(time: string, actor: string, action: string, details: Dict<N>) returns (ok: bool)
      modifies this`audit
      ensures ok == AuditLog.Audited(env.primitives, old(audit), time, actor, action, details).Some?
      ensures audit == if ok then AuditLog.Audited(env.primitives, old(audit), time, actor, action, details).value
        else old(audit)
    {
      var last := AuditLog.FindLastHash(audit);
      if last == None { return false; }
      var core := AuditLog.Core(time, actor, action, details, last.value);
      audit := audit + [Parsed(Obj(AuditLog.Entry(env.primitives, core)))];
      ok := true;
    }

    method Add(i: Ingest, evidenceId: string, prefix: Bytes, time: string) returns (r: Result<string, Error>)
      modifies this
      ensures After(State(), r) == AddFile(env, old(State()), i, evidenceId, prefix, time)
    {
      hide Encrypt, ObjectPath, IngestDetails, Upgraded, AuditLog.Audited;
      if i.classification == None { return Err(BadClassification); }
      var c := i.classification.value;
      var digest := env.primitives.sha256(i.content);
      if digest !in objects {
        var useEncrypt := if i.encrypt == None then env.key.Some? else i.encrypt.value;
        if useEncrypt && env.key == None { return Err(KeyMissing); }
        var file := i.content;
        if useEncrypt {
          var sealed := EncryptV2(env.key.value, digest, prefix, CHUNK, i.content);
          if sealed.Err? { return Err(SealFailed(sealed.error)); }
          file := sealed.value;
        }
        files := files[ObjectPath(digest) := file];
        objects := objects[digest := ObjectRow(|i.content|, ObjectPath(digest), useEncrypt, c)];
      } else {
        UpgradeObjectClassification(digest, c);
      }
      var row := EvidenceRow(i.caseId, digest, i.name, c, i.retentionUntil);
      evidence := evidence[evidenceId := row];
      var ok := AppendAudit(time, i.actor, "evidence_ingested", IngestDetails(env, row, evidenceId, |i.content|));
      r := if ok then Ok(evidenceId) else Err(AuditUnreadable);
    }

    method UpgradeObjectClassification(digest: string, c: Classification)
      modifies this`objects
      ensures objects == if digest in old(objects) then old(objects)[digest := Upgraded(old(objects)[digest], c)]
        else old(objects)
    {
      if digest in objects {
        if Rank(c) > Rank(objects[digest].storage) {
          objects := objects[digest := objects[digest].(storage := c)];
        }
        assert objects == old(objects)[digest := Upgraded(old(objects)[digest], c)];
      }
    }

    method ExtractTo(evidenceId: string, destination: string, actor: string, time: string)
      returns (r: Result<Bytes, Error>)
      modifies this`audit
      ensures After(State(), r) == Extract(env, old(State()), evidenceId, destination, actor, time)
    {
      if evidenceId !in evidence || evidence[evidenceId].sha256 !in objects { return Err(NoSuchEvidence); }
      var row := evidence[evidenceId];
      var plain := ReadObject(env, State(), row.sha256);
      if plain.Err? { return Err(plain.error); }
      var ok := AppendAudit(time, actor, "evidence_extracted", ExtractDetails(row, evidenceId, destination));
      r := if ok then Ok(plain.value) else Err(AuditUnreadable);
    }

    method Hold(caseId: string, evidenceId: Option<string>, reason: string, actor: string, holdId: string, time: string)
      returns (r: Result<string, Error>)
      modifies this`holds, this`audit
      ensures After(State(), r) == CreateHold(env, old(State()), caseId, evidenceId, reason, actor, holdId, time)
    {
      var h := HoldRow(caseId, evidenceId, reason, actor, None);
      holds := holds[holdId := h];
      var ok := AppendAudit(time, actor, "legal_hold_created", HoldDetails(holdId, h));
      r := if ok then Ok(holdId) else Err(AuditUnreadable);
    }

    method Release(holdId: string, actor: string, time: string) returns (r: Result<(), Error>)
      modifies this`holds, this`audit
      ensures After(State(), r) == ReleaseHold(env, old(State()), holdId, actor, time)
    {
      if holdId !in holds { return Err(NoSuchHold); }
      if holds[holdId].releasedBy.Some? { return Ok(()); }
      holds := holds[holdId := holds[holdId].(releasedBy := Some(actor))];
      var ok := AppendAudit(time, actor, "legal_hold_released", ReleaseDetails(holdId));
      r := if ok then Ok(()) else Err(AuditUnreadable);
    }

    /** None where verify raises: at an audit line that is no object with an event hash. */
    method Verify() returns (r: Option<Report>)
      ensures var chain := AuditLog.Check(env.primitives, audit);
        && (r == None <==> chain.Broken? && chain.why == AuditLog.Raised)
        && (r.Some? ==>
             && r.value.objects == |objects| && r.value.auditEvents == chain.count
             && r.value.audit == AuditFinding(chain)
             && (forall d :: d in r.value.findings <==> d in objects && Inspect(env, State(), d) != None)
             && (forall d :: d in r.value.findings ==> Some(r.value.findings[d]) == Inspect(env, State(), d)))
      ensures Valid(env, State()) <==> r.Some? && r.value.findings == map[] && r.value.audit == None
    {
      hide Inspect, ObjectPasses, AuditLog.Check;
      var findings: map<string, ObjectFinding> := map[];
      var rest := objects.Keys;
      while rest != {}
        invariant rest <= objects.Keys
        invariant forall d :: d in findings <==> d in objects && d !in rest && Inspect(env, State(), d) != None
        invariant forall d :: d in findings ==> Some(findings[d]) == Inspect(env, State(), d)
        decreases rest
      {
        var d :| d in rest;
        var finding := Inspect(env, State(), d);
        if finding.Some? { findings := findings[d := finding.value]; }
        rest := rest - {d};
      }
      forall d | d in objects ensures Inspect(env, State(), d) == None <==> ObjectPasses(env, State(), d) {
        InspectIff(env, State(), d);
      }
      NoFindings(env, State(), findings);
      var chain := AuditLog.CheckAudit(env.primitives, audit);
      if chain.Broken? && chain.why == AuditLog.Raised { return None; }
      r := Some(Report(|objects|, chain.count, findings, AuditFinding(chain)));
    }

    /** disposition_plan: every expired row is eligible or blocked, and blocked says why. */
    method DispositionPlan(now: int) returns (eligible: set<string>, blocked: map<string, Blocked>)
      ensures forall e :: e in eligible <==> Eligible(State(), e, now)
      ensures forall e :: e in blocked <==>
        e in evidence && Expired(evidence[e], now) &&
          (CaseHeld(State(), evidence[e].caseId) || EvidenceHeld(State(), e))
      ensures forall e :: e in blocked ==>
        blocked[e] == if CaseHeld(State(), evidence[e].caseId) then CaseLegalHold else EvidenceLegalHold
    {
      var caseHolds :=
        set h | h in holds && holds[h].releasedBy == None && holds[h].evidenceId == None :: holds[h].caseId;
      var evidHolds :=
        set h | h in holds && holds[h].releasedBy == None && holds[h].evidenceId.Some? :: holds[h].evidenceId.value;
      assert forall c :: c in caseHolds <==> CaseHeld(State(), c);
      assert forall e :: e in evidHolds <==> EvidenceHeld(State(), e);
      eligible, blocked := {}, map[];
      var rest := evidence.Keys;
      while rest != {}
        invariant rest <= evidence.Keys
        invariant forall e :: e in eligible <==>
          e in evidence && e !in rest && Expired(evidence[e], now) && evidence[e].caseId !in caseHolds &&
            e !in evidHolds
        invariant forall e :: e in blocked <==>
          e in evidence && e !in rest && Expired(evidence[e], now) &&
            (evidence[e].caseId in caseHolds || e in evidHolds)
        invariant forall e :: e in blocked ==>
          blocked[e] == if evidence[e].caseId in caseHolds then CaseLegalHold else EvidenceLegalHold
        decreases rest
      {
        var e :| e in rest;
        rest := rest - {e};
        if Expired(evidence[e], now) {
          if evidence[e].caseId in caseHolds {
            blocked := blocked[e := CaseLegalHold];
          } else if e in evidHolds {
            blocked := blocked[e := EvidenceLegalHold];
          } else {
            eligible := eligible + {e};
          }
        }
      }
    }
  }

  function Empty<N>(): (s: Repo<N>) { Repo(map[], map[], map[], map[], []) }
}
