/** What holds of the evidence repository after any run of its operations: its tables, files and
    audit agree (Inv), so verification succeeds, an extract gives what was added, the stored
    class is the highest asked for, and an expired row is eligible when no hold covers it. */
module RepositoryRuns {
  import opened Wrappers
  import opened Encodings
  import opened Dictionaries
  import opened EncryptedObjects
  import opened Repository
  import AuditLog

  datatype Op =
    | DoAdd(ingest: Ingest, evidenceId: string, prefix: Bytes, time: string)
    | DoExtract(evidenceId: string, destination: string, actor: string, time: string)
    | DoHold(caseId: string, about: Option<string>, reason: string, actor: string, holdId: string, time: string)
    | DoRelease(holdId: string, actor: string, time: string)

  function Apply<N>(env: Env<N>, s: Repo<N>, op: Op): (t: Repo<N>) {
    match op
    case DoAdd(i, e, prefix, time) => AddFile(env, s, i, e, prefix, time).repo
    case DoExtract(e, destination, actor, time) => Extract(env, s, e, destination, actor, time).repo
    case DoHold(c, about, reason, actor, h, time) => CreateHold(env, s, c, about, reason, actor, h, time).repo
    case DoRelease(h, actor, time) => ReleaseHold(env, s, h, actor, time).repo
  }

  /** Generated identifiers are new, and nonce prefixes are eight bytes. */
  predicate Legal<N>(s: Repo<N>, op: Op) {
    match op
    case DoAdd(_, e, prefix, _) => e !in s.evidence && |prefix| == 8
    case DoHold(_, _, _, _, h, _) => h !in s.holds
    case _ => true
  }

  function Run<N>(env: Env<N>, ops: seq<Op>): (s: Repo<N>) {
    if ops == [] then Empty() else Apply(env, Run(env, ops[..|ops| - 1]), ops[|ops| - 1])
  }

  predicate LegalRun<N>(env: Env<N>, ops: seq<Op>) {
    ops == [] || (LegalRun(env, ops[..|ops| - 1]) && Legal(Run(env, ops[..|ops| - 1]), ops[|ops| - 1]))
  }

  /** The bytes that were added under each evidence id. */
  function Contents<N>(env: Env<N>, ops: seq<Op>): (m: map<string, Bytes>) {
    if ops == [] then map[]
    else
      var before, op := ops[..|ops| - 1], ops[|ops| - 1];
      if op.DoAdd? && AddFile(env, Run(env, before), op.ingest, op.evidenceId, op.prefix, op.time).result.Ok?
      then Contents(env, before)[op.evidenceId := op.ingest.content]
      else Contents(env, before)
  }

  ghost predicate EnvLawful<N>(env: Env<N>) { env.key.Some? ==> Laws(env.key.value) }

  // ---- The invariant ----

  ghost predicate ObjectGood<N>(env: Env<N>, s: Repo<N>, d: string)
    requires d in s.objects
  {
    s.objects[d].storedPath == ObjectPath(d) && ReadObject(env, s, d).Ok?
  }

  /** The storage classification is the greatest of the evidence rows that share the object. */
  ghost predicate HighWaterMark<N>(s: Repo<N>, d: string)
    requires d in s.objects
  {
    && (exists e ::
      e in s.evidence && s.evidence[e].sha256 == d && s.evidence[e].classification == s.objects[d].storage)
    && (forall e :: e in s.evidence && s.evidence[e].sha256 == d ==>
          Rank(s.evidence[e].classification) <= Rank(s.objects[d].storage))
  }

  ghost predicate Inv<N>(env: Env<N>, s: Repo<N>) {
    && (forall d :: d in s.objects ==> ObjectGood(env, s, d))
    && (forall d :: d in s.objects ==> HighWaterMark(s, d))
    && (forall e :: e in s.evidence ==> s.evidence[e].sha256 in s.objects)
    && AuditLog.Check(env.primitives, s.audit).Chained?
  }

  // ---- Reading objects ----

  lemma ReadObjectHasDigest<N>(env: Env<N>, s: Repo<N>, d: string)
    requires d in s.objects && ReadObject(env, s, d).Ok?
    ensures env.primitives.sha256(ReadObject(env, s, d).value) == d
  {
  }

  /** Reading depends on where an object is stored, whether it is encrypted, and its file. */
  lemma ReadObjectFrame<N>(env: Env<N>, s: Repo<N>, t: Repo<N>, d: string)
    requires d in s.objects && d in t.objects
    requires s.objects[d].storedPath == t.objects[d].storedPath && s.objects[d].encrypted == t.objects[d].encrypted
    requires s.objects[d].storedPath in s.files && s.objects[d].storedPath in t.files
    requires s.files[s.objects[d].storedPath] == t.files[s.objects[d].storedPath]
    ensures ReadObject(env, s, d) == ReadObject(env, t, d)
  {
    hide Decrypt, OpenLegacy;
  }

  lemma PackedReads<N>(env: Env<N>, encrypt: Option<bool>, prefix: Bytes, content: Bytes, s: Repo<N>)
    requires EnvLawful(env) && |prefix| == 8 && Packed(env, encrypt, prefix, content).Ok?
    requires var d := env.primitives.sha256(content); d in s.objects && s.objects[d].storedPath in s.files
    requires var d := env.primitives.sha256(content);
      Packed(env, encrypt, prefix, content).value == (s.files[s.objects[d].storedPath], s.objects[d].encrypted)
    ensures ReadObject(env, s, env.primitives.sha256(content)) == Ok(content)
  {
    hide Decrypt, Encrypt, OpenLegacy, Laws;
    var d := env.primitives.sha256(content);
    if s.objects[d].encrypted {
      var file := s.files[s.objects[d].storedPath];
      EncryptDecrypt(env.key.value, env.primitives.sha256, prefix, CHUNK, content);
      StartsWithMagic(env.key.value, d, prefix, CHUNK, content);
      assert Slice(file, 0, 7) == MAGIC;
    }
  }

  lemma StartsWithMagic(a: Aead, digest: string, prefix: Bytes, chunk: nat, plain: Bytes)
    requires Encrypt(a, digest, prefix, chunk, plain).Ok?
    ensures |Encrypt(a, digest, prefix, chunk, plain).value| >= 7
    ensures Encrypt(a, digest, prefix, chunk, plain).value[..7] == MAGIC
  {
    hide SealFrames;
  }

  // ---- Every operation keeps the invariant ----

  lemma AuditKeeps<N, T>(
      env: Env<N>, s: Repo<N>, time: string, actor: string, action: string, details: Dict<N>, value: T)
    requires AuditLog.Check(env.primitives, s.audit).Chained?
    ensures var a := Audit(env, s, time, actor, action, details, value);
      a.result == Ok(value) && a.repo == s.(audit := a.repo.audit) &&
        AuditLog.Check(env.primitives, a.repo.audit).Chained?
  {
    AuditLog.AuditKeepsChain(env.primitives, s.audit, time, actor, action, details);
  }

  lemma SameTablesKeepInv<N>(env: Env<N>, s: Repo<N>, t: Repo<N>)
    requires Inv(env, s) && t.objects == s.objects && t.files == s.files && t.evidence == s.evidence
    requires AuditLog.Check(env.primitives, t.audit).Chained?
    ensures Inv(env, t)
  {
    hide ReadObject;
    forall d | d in t.objects ensures ObjectGood(env, t, d) && HighWaterMark(t, d) {
      assert ObjectGood(env, s, d) && HighWaterMark(s, d);
      ReadObjectSameTables(env, s, t, d);
      var e :| e in s.evidence && s.evidence[e].sha256 == d && s.evidence[e].classification == s.objects[d].storage;
      assert e in t.evidence;
    }
  }

  lemma ReadObjectSameTables<N>(env: Env<N>, s: Repo<N>, t: Repo<N>, d: string)
    requires d in s.objects && t.objects == s.objects && t.files == s.files
    ensures ReadObject(env, s, d) == ReadObject(env, t, d)
  {
    hide Decrypt, OpenLegacy;
  }

  /** The object tables after an add, before the evidence row. */
  lemma WithObjectKeepsReads<N>(
      env: Env<N>, s: Repo<N>, content: Bytes, c: Classification, encrypt: Option<bool>, prefix: Bytes)
    requires EnvLawful(env) && Inv(env, s) && |prefix| == 8
    requires WithObject(env, s, content, c, encrypt, prefix).Ok?
    ensures var t, d := WithObject(env, s, content, c, encrypt, prefix).value, env.primitives.sha256(content);
      t.objects.Keys == s.objects.Keys + {d} && (forall e :: e in t.objects ==> ObjectGood(env, t, e))
  {
    hide ReadObject, Packed, HighWaterMark, EnvLawful, ObjectPath, AuditLog.Check;
    var t, d := WithObject(env, s, content, c, encrypt, prefix).value, env.primitives.sha256(content);
    forall e | e in t.objects ensures ObjectGood(env, t, e) {
      if e in s.objects {
        assert ObjectGood(env, s, e);
        ReadableIsStored(env, s, e);
        if ObjectPath(e) == ObjectPath(d) { ObjectPathInjective(e, d); }
        ReadObjectFrame(env, s, t, e);
      } else {
        PackedReads(env, encrypt, prefix, content, t);
      }
    }
  }

  lemma ReadableIsStored<N>(env: Env<N>, s: Repo<N>, d: string)
    requires d in s.objects && ReadObject(env, s, d).Ok?
    ensures s.objects[d].storedPath in s.files
  {
  }

  lemma WithEvidenceKeepsMarks<N>(s: Repo<N>, t: Repo<N>, d: string, evidenceId: string, row: EvidenceRow)
    requires forall e :: e in s.objects ==> HighWaterMark(s, e)
    requires forall e :: e in s.evidence ==> s.evidence[e].sha256 in s.objects
    requires evidenceId !in s.evidence && row.sha256 == d && t.evidence == s.evidence[evidenceId := row]
    requires t.objects.Keys == s.objects.Keys + {d}
    requires forall e :: e in s.objects && e != d ==> t.objects[e] == s.objects[e]
    requires t.objects[d].storage == if d in s.objects then Upgraded(s.objects[d], row.classification).storage
      else row.classification
    ensures forall e :: e in t.objects ==> HighWaterMark(t, e)
  {
    hide HighWaterMark, Upgraded;
    forall o | o in t.objects ensures HighWaterMark(t, o) {
      if o in s.objects { assert HighWaterMark(s, o); }
      WithEvidenceKeepsMark(s, t, d, evidenceId, row, o);
    }
  }

  lemma WithEvidenceKeepsMark<N>(s: Repo<N>, t: Repo<N>, d: string, evidenceId: string, row: EvidenceRow, o: string)
    requires o in t.objects && (o in s.objects ==> HighWaterMark(s, o))
    requires forall e :: e in s.evidence ==> s.evidence[e].sha256 in s.objects
    requires evidenceId !in s.evidence && row.sha256 == d && t.evidence == s.evidence[evidenceId := row]
    requires o == d || o in s.objects
    requires o != d ==> t.objects[o] == s.objects[o]
    requires o == d ==>
      t.objects[o].storage == if d in s.objects then Upgraded(s.objects[d], row.classification).storage
        else row.classification
    ensures HighWaterMark(t, o)
  {
    if o in s.objects {
      var e :| e in s.evidence && s.evidence[e].sha256 == o && s.evidence[e].classification == s.objects[o].storage;
      assert t.evidence[e] == s.evidence[e];
    }
    assert t.evidence[evidenceId] == row;
    forall e | e in t.evidence && t.evidence[e].sha256 == o
      ensures Rank(t.evidence[e].classification) <= Rank(t.objects[o].storage)
    {
      if e != evidenceId { assert t.evidence[e] == s.evidence[e]; }
    }
  }

  /** The tables after an add: object first, then evidence row. */
  lemma RowsKeepInv<N>(
      env: Env<N>, s: Repo<N>, content: Bytes, encrypt: Option<bool>, prefix: Bytes, evidenceId: string,
      row: EvidenceRow)
    requires EnvLawful(env) && Inv(env, s) && |prefix| == 8
    requires evidenceId !in s.evidence && row.sha256 == env.primitives.sha256(content)
    requires WithObject(env, s, content, row.classification, encrypt, prefix).Ok?
    ensures var t := WithObject(env, s, content, row.classification, encrypt, prefix).value;
      t.evidence == s.evidence && t.holds == s.holds && Inv(env, t.(evidence := t.evidence[evidenceId := row]))
  {
    hide ReadObject, Packed, HighWaterMark, EnvLawful;
    var t := WithObject(env, s, content, row.classification, encrypt, prefix).value;
    var u := t.(evidence := t.evidence[evidenceId := row]);
    WithObjectKeepsReads(env, s, content, row.classification, encrypt, prefix);
    WithEvidenceKeepsMarks(s, u, row.sha256, evidenceId, row);
    forall d | d in u.objects ensures ObjectGood(env, u, d) {
      assert ObjectGood(env, t, d);
      ReadObjectSameTables(env, t, u, d);
    }
  }

  lemma AddKeepsInv<N>(env: Env<N>, s: Repo<N>, i: Ingest, evidenceId: string, prefix: Bytes, time: string)
    requires EnvLawful(env) && Inv(env, s) && evidenceId !in s.evidence && |prefix| == 8
    ensures Inv(env, AddFile(env, s, i, evidenceId, prefix, time).repo)
    ensures var a := AddFile(env, s, i, evidenceId, prefix, time);
      if a.result.Ok? then
        a.repo.evidence.Keys == s.evidence.Keys + {evidenceId} &&
        a.repo.evidence[evidenceId].sha256 == env.primitives.sha256(i.content) &&
        (forall e :: e in s.evidence ==> a.repo.evidence[e] == s.evidence[e])
      else a.repo == s
    ensures AddFile(env, s, i, evidenceId, prefix, time).repo.holds == s.holds
  {
    hide WithObject, IngestDetails, Audit, Inv, EnvLawful;
    if i.classification.Some? && WithObject(env, s, i.content, i.classification.value, i.encrypt, prefix).Ok? {
      var c := i.classification.value;
      var row := EvidenceRow(i.caseId, env.primitives.sha256(i.content), i.name, c, i.retentionUntil);
      var t := WithObject(env, s, i.content, c, i.encrypt, prefix).value;
      var u := t.(evidence := t.evidence[evidenceId := row]);
      RowsKeepInv(env, s, i.content, i.encrypt, prefix, evidenceId, row);
      InvChained(env, u);
      AuditKeeps(env, u, time, i.actor, "evidence_ingested", IngestDetails(env, row, evidenceId, |i.content|),
        evidenceId);
      SameTablesKeepInv(env, u, AddFile(env, s, i, evidenceId, prefix, time).repo);
    }
  }

  lemma ApplyKeepsInv<N>(env: Env<N>, s: Repo<N>, op: Op)
    requires EnvLawful(env) && Inv(env, s) && Legal(s, op)
    ensures Inv(env, Apply(env, s, op))
    ensures !op.DoAdd? ==> Apply(env, s, op).evidence == s.evidence
  {
    hide ReadObject, Audit, Inv;
    assert AuditLog.Check(env.primitives, s.audit).Chained? by { InvChained(env, s); }
    match op {
      case DoAdd(i, e, prefix, time) => AddKeepsInv(env, s, i, e, prefix, time);
      case DoExtract(e, destination, actor, time) =>
        var a := Extract(env, s, e, destination, actor, time);
        if e in s.evidence && s.evidence[e].sha256 in s.objects && ReadObject(env, s, s.evidence[e].sha256).Ok? {
          AuditKeeps(env, s, time, actor, "evidence_extracted", ExtractDetails(s.evidence[e], e, destination),
                     ReadObject(env, s, s.evidence[e].sha256).value);
        }
        SameTablesKeepInv(env, s, a.repo);
      case DoHold(c, about, reason, actor, h, time) =>
        var row := HoldRow(c, about, reason, actor, None);
        AuditKeeps(env, s.(holds := s.holds[h := row]), time, actor, "legal_hold_created", HoldDetails(h, row), h);
        SameTablesKeepInv(env, s, Apply(env, s, op));
      case DoRelease(h, actor, time) =>
        if h in s.holds && s.holds[h].releasedBy == None {
          var row := s.holds[h].(releasedBy := Some(actor));
          AuditKeeps(env, s.(holds := s.holds[h := row]), time, actor, "legal_hold_released", ReleaseDetails(h), ());
        }
        SameTablesKeepInv(env, s, Apply(env, s, op));
    }
  }

  lemma InvChained<N>(env: Env<N>, s: Repo<N>)
    requires Inv(env, s)
    ensures AuditLog.Check(env.primitives, s.audit).Chained?
  {
  }

  // ---- Over whole runs ----

  lemma {:induction false} RunKeepsInv<N>(env: Env<N>, ops: seq<Op>)
    requires EnvLawful(env) && LegalRun(env, ops)
    ensures Inv(env, Run(env, ops))
    ensures Contents(env, ops).Keys == Run(env, ops).evidence.Keys
    ensures forall e :: e in Contents(env, ops) ==>
      env.primitives.sha256(Contents(env, ops)[e]) == Run(env, ops).evidence[e].sha256
  {
    hide Inv, AddFile, Apply;
    if ops == [] {
      EmptyInv(env);
    } else {
      var before, op := ops[..|ops| - 1], ops[|ops| - 1];
      RunKeepsInv(env, before);
      ApplyKeepsInv(env, Run(env, before), op);
      if op.DoAdd? {
        ApplyAdd(env, Run(env, before), op);
        AddKeepsInv(env, Run(env, before), op.ingest, op.evidenceId, op.prefix, op.time);
      }
    }
  }

  lemma ApplyAdd<N>(env: Env<N>, s: Repo<N>, op: Op)
    requires op.DoAdd?
    ensures Apply(env, s, op) == AddFile(env, s, op.ingest, op.evidenceId, op.prefix, op.time).repo
  {
    hide AddFile;
  }

  lemma EmptyInv<N>(env: Env<N>)
    ensures Inv(env, Empty())
  {
  }

  /** After any run of adds, extracts, holds and releases, verify reports a valid repository. */
  lemma VerifyAlwaysValid<N>(env: Env<N>, ops: seq<Op>)
    requires EnvLawful(env) && LegalRun(env, ops)
    ensures Valid(env, Run(env, ops))
  {
    hide Run, LegalRun, ReadObject;
    RunKeepsInv(env, ops);
    var s := Run(env, ops);
    forall d | d in s.objects ensures ObjectPasses(env, s, d) {
      assert ObjectGood(env, s, d);
      ReadableIsStored(env, s, d);
    }
  }

  /** Every evidence id can be extracted, and gives the bytes added under it. Deduplication can
      give other bytes only when the two collide under SHA-256. */
  lemma ExtractGivesWhatWasAdded<N>(
      env: Env<N>, ops: seq<Op>, evidenceId: string, destination: string, actor: string, time: string)
    requires EnvLawful(env) && LegalRun(env, ops)
    ensures var r := Extract(env, Run(env, ops), evidenceId, destination, actor, time).result;
      if evidenceId in Contents(env, ops) then
        r.Ok? &&
        (r.value == Contents(env, ops)[evidenceId] ||
          (r.value != Contents(env, ops)[evidenceId] &&
            env.primitives.sha256(r.value) == env.primitives.sha256(Contents(env, ops)[evidenceId])))
      else r == Err(NoSuchEvidence)
  {
    hide Run, LegalRun, ReadObject, Audit, Contents;
    RunKeepsInv(env, ops);
    var s := Run(env, ops);
    if evidenceId in s.evidence {
      var d := s.evidence[evidenceId].sha256;
      assert ObjectGood(env, s, d);
      ReadObjectHasDigest(env, s, d);
      AuditKeeps(env, s, time, actor, "evidence_extracted",
        ExtractDetails(s.evidence[evidenceId], evidenceId, destination),
                 ReadObject(env, s, d).value);
    }
  }

  /** Each object is classified as high as the highest of the evidence rows that share it. */
  lemma StorageIsHighWaterMark<N>(env: Env<N>, ops: seq<Op>, d: string)
    requires EnvLawful(env) && LegalRun(env, ops) && d in Run(env, ops).objects
    ensures HighWaterMark(Run(env, ops), d)
  {
    hide Run, LegalRun;
    RunKeepsInv(env, ops);
  }

  /** Read off the history: the hold was created and has not been released since. */
  predicate HoldActive(ops: seq<Op>, holdId: string) {
    ops != [] &&
    match ops[|ops| - 1]
    case DoHold(_, _, _, _, h, _) => h == holdId || HoldActive(ops[..|ops| - 1], holdId)
    case DoRelease(h, _, _) => h != holdId && HoldActive(ops[..|ops| - 1], holdId)
    case _ => HoldActive(ops[..|ops| - 1], holdId)
  }

  lemma {:induction false} HoldsFollowHistory<N>(env: Env<N>, ops: seq<Op>, holdId: string)
    requires EnvLawful(env) && LegalRun(env, ops)
    ensures HoldActive(ops, holdId) <==>
      holdId in Run(env, ops).holds && Run(env, ops).holds[holdId].releasedBy == None
  {
    hide AddFile, Extract, CreateHold, ReleaseHold, EnvLawful;
    if ops != [] {
      var before, op := ops[..|ops| - 1], ops[|ops| - 1];
      HoldsFollowHistory(env, before, holdId);
      RunKeepsInv(env, before);
      HoldStep(env, Run(env, before), op, holdId);
    }
  }

  /** A hold row says what the operation said that created it. */
  ghost predicate RowOf(op: Op, row: HoldRow) { op.DoHold? && row.caseId == op.caseId && row.evidenceId == op.about }

  lemma HoldStep<N>(env: Env<N>, s: Repo<N>, op: Op, holdId: string)
    requires EnvLawful(env) && Inv(env, s) && Legal(s, op)
    ensures var t := Apply(env, s, op);
      var was := holdId in s.holds && s.holds[holdId].releasedBy == None;
      var now := holdId in t.holds && t.holds[holdId].releasedBy == None;
      match op
      case DoHold(_, _, _, _, h, _) => now <==> h == holdId || was
      case DoRelease(h, _, _) => now <==> h != holdId && was
      case _ => now <==> was
    ensures var t := Apply(env, s, op);
      && (holdId in t.holds <==> holdId in s.holds || (op.DoHold? && op.holdId == holdId))
      && (holdId in s.holds ==>
           t.holds[holdId].caseId == s.holds[holdId].caseId && t.holds[holdId].evidenceId == s.holds[holdId].evidenceId)
      && (op.DoHold? && op.holdId == holdId ==> RowOf(op, t.holds[holdId]))
  {
    hide ReadObject, Audit, Inv, AddFile;
    InvChained(env, s);
    match op {
      case DoAdd(i, e, prefix, time) => AddKeepsInv(env, s, i, e, prefix, time);
      case DoExtract(e, destination, actor, time) =>
        if e in s.evidence && s.evidence[e].sha256 in s.objects && ReadObject(env, s, s.evidence[e].sha256).Ok? {
          AuditKeeps(env, s, time, actor, "evidence_extracted", ExtractDetails(s.evidence[e], e, destination),
                     ReadObject(env, s, s.evidence[e].sha256).value);
        }
      case DoHold(c, about, reason, actor, h, time) =>
        var row := HoldRow(c, about, reason, actor, None);
        AuditKeeps(env, s.(holds := s.holds[h := row]), time, actor, "legal_hold_created", HoldDetails(h, row), h);
      case DoRelease(h, actor, time) =>
        if h in s.holds && s.holds[h].releasedBy == None {
          var row := s.holds[h].(releasedBy := Some(actor));
          AuditKeeps(env, s.(holds := s.holds[h := row]), time, actor, "legal_hold_released", ReleaseDetails(h), ());
        }
    }
  }

  // ---- Disposition, read off the history ----

  /** The k-th operation created a hold that no later operation released. */
  predicate Unreleased(ops: seq<Op>, k: nat)
    requires k < |ops|
  {
    ops[k].DoHold? && forall j :: k < j < |ops| ==> !(ops[j].DoRelease? && ops[j].holdId == ops[k].holdId)
  }

  /** A hold was put on the case as a whole, or on the evidence row, and not released since. */
  ghost predicate Covered(ops: seq<Op>, caseId: string, evidenceId: string) {
    exists k :: 0 <= k < |ops| && Unreleased(ops, k) && OnOp(ops[k], caseId, evidenceId)
  }

  predicate OnOp(op: Op, caseId: string, evidenceId: string) {
    op.DoHold? && (op.about == Some(evidenceId) || (op.about == None && op.caseId == caseId))
  }

  predicate OnRow(row: HoldRow, caseId: string, evidenceId: string) {
    row.evidenceId == Some(evidenceId) || (row.evidenceId == None && row.caseId == caseId)
  }

  ghost predicate Creates(ops: seq<Op>, k: nat, holdId: string, row: HoldRow) {
    k < |ops| && ops[k].DoHold? && ops[k].holdId == holdId && RowOf(ops[k], row)
  }

  /** The row of a hold is the one that was created, and every creation has left its row. */
  ghost predicate AsCreated(ops: seq<Op>, h: string, holds: map<string, HoldRow>) {
    && (h in holds ==> exists k :: Creates(ops, k, h, holds[h]))
    && forall k: nat :: k < |ops| && ops[k].DoHold? && ops[k].holdId == h ==> h in holds && Creates(ops, k, h, holds[h])
  }

  lemma {:induction false} HoldRowsAreCreated<N>(env: Env<N>, ops: seq<Op>, h: string)
    requires EnvLawful(env) && LegalRun(env, ops)
    ensures AsCreated(ops, h, Run(env, ops).holds)
  {
    hide Apply, EnvLawful, Inv, AsCreated, RowOf, Legal, Contents, ReadObject;
    if ops == [] {
      NothingCreated(h);
    } else {
      var before, op := ops[..|ops| - 1], ops[|ops| - 1];
      HoldRowsAreCreated(env, before, h);
      RunKeepsInv(env, before);
      HoldStep(env, Run(env, before), op, h);
      assert ops == before + [op];
      CreatedStep(before, op, h, Run(env, before).holds, Run(env, ops).holds);
    }
  }

  lemma NothingCreated(h: string)
    ensures AsCreated([], h, map[])
  {
  }

  lemma CreatedStep(before: seq<Op>, op: Op, h: string, was: map<string, HoldRow>, now: map<string, HoldRow>)
    requires h in now <==> h in was || (op.DoHold? && op.holdId == h)
    requires h in was ==> now[h].caseId == was[h].caseId && now[h].evidenceId == was[h].evidenceId
    requires op.DoHold? && op.holdId == h ==> RowOf(op, now[h])
    requires AsCreated(before, h, was)
    ensures AsCreated(before + [op], h, now)
  {
    var ops := before + [op];
    if h in was {
      var k :| Creates(before, k, h, was[h]);
      assert Creates(ops, k, h, now[h]);
    } else if h in now {
      assert Creates(ops, |before|, h, now[h]);
    }
    forall k: nat | k < |ops| && ops[k].DoHold? && ops[k].holdId == h ensures h in now && Creates(ops, k, h, now[h]) {
      if k < |before| { assert Creates(before, k, h, was[h]); }
    }
  }

  lemma {:induction false} ActiveIsUnreleased(ops: seq<Op>, h: string)
    ensures HoldActive(ops, h) <==> exists k :: 0 <= k < |ops| && Unreleased(ops, k) && ops[k].holdId == h
  {
    if ops != [] {
      var before, n := ops[..|ops| - 1], |ops| - 1;
      ActiveIsUnreleased(before, h);
      assert forall k :: 0 <= k < n ==> before[k] == ops[k];
      if HoldActive(ops, h) {
        if ops[n].DoHold? && ops[n].holdId == h {
          assert Unreleased(ops, n);
        } else {
          var k :| 0 <= k < n && Unreleased(before, k) && before[k].holdId == h;
          assert Unreleased(ops, k);
        }
      }
      if k :| 0 <= k < |ops| && Unreleased(ops, k) && ops[k].holdId == h {
        if k < n { assert Unreleased(before, k); }
      }
    }
  }

  /** After any run, an evidence row is eligible for disposition exactly when its retention has ended
      and every hold ever put on it, or on its case as a whole, has been released. */
  lemma DispositionFollowsHistory<N>(env: Env<N>, ops: seq<Op>, e: string, now: int)
    requires EnvLawful(env) && LegalRun(env, ops)
    requires e in Run(env, ops).evidence
    ensures var row := Run(env, ops).evidence[e];
      Eligible(Run(env, ops), e, now) <==>
      row.retentionUntil.Some? && row.retentionUntil.value <= now && !Covered(ops, row.caseId, e)
  {
    hide Run, LegalRun, EnvLawful, HoldActive;
    var s := Run(env, ops);
    var caseId := s.evidence[e].caseId;
    if Covered(ops, caseId, e) {
      var k :| 0 <= k < |ops| && Unreleased(ops, k) && OnOp(ops[k], caseId, e);
      var h := ops[k].holdId;
      HoldRowsAreCreated(env, ops, h);
      ActiveIsUnreleased(ops, h);
      HoldsFollowHistory(env, ops, h);
      assert Creates(ops, k, h, s.holds[h]);
    }
    if h :| h in s.holds && s.holds[h].releasedBy == None && OnRow(s.holds[h], caseId, e) {
      HoldsFollowHistory(env, ops, h);
      ActiveIsUnreleased(ops, h);
      HoldRowsAreCreated(env, ops, h);
      var k :| 0 <= k < |ops| && Unreleased(ops, k) && ops[k].holdId == h;
      assert Creates(ops, k, h, s.holds[h]);
    }
  }
}
