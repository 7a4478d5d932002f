/** Which stored objects are encrypted, read off the history of a repository. */
module EncryptionAtRest {
  import opened Wrappers
  import opened Encodings
  import opened EncryptedObjects
  import opened Repository
  import opened RepositoryRuns
  import opened AnchorRuns

  /** The i-th operation added content of digest `d` and left its evidence row. */
  ghost predicate Added<N>(env: Env<N>, ops: seq<Op>, i: nat, d: string) {
    && i < |ops| && ops[i].DoAdd? && env.primitives.sha256(ops[i].ingest.content) == d
    && ops[i].evidenceId in Run(env, ops[..i + 1]).evidence
  }

  ghost predicate FirstAdded<N>(env: Env<N>, ops: seq<Op>, j: nat, d: string) {
    Added(env, ops, j, d) && forall i: nat :: i < j ==> !Added(env, ops, i, d)
  }

  /** Encryption was asked for, or nothing was said and there is a key. */
  predicate Asked<N>(env: Env<N>, i: Ingest) { i.encrypt == Some(true) || (i.encrypt == None && env.key.Some?) }

  /** The object's row says how large its content is and whether its file is encrypted, and the file
      holds the content. */
  ghost predicate Keeps<N>(env: Env<N>, s: Repo<N>, d: string, encrypted: bool, content: Bytes) {
    && d in s.objects && s.objects[d].encrypted == encrypted && s.objects[d].size == |content|
    && s.objects[d].storedPath in s.files
    && var file := s.files[s.objects[d].storedPath];
    if encrypted then
      env.key.Some? && |file| >= 7 && file[..7] == MAGIC &&
      Decrypt(env.key.value, env.primitives.sha256, file, d) == Ok(content)
    else file == content
  }

  // ---- One operation ----

  lemma NewFile<N>(env: Env<N>, i: Ingest, prefix: Bytes)
    requires EnvLawful(env) && |prefix| == 8
    ensures Packed(env, i.encrypt, prefix, i.content).Ok? <==>
      Asked(env, i) ==>
        env.key.Some? && Encrypt(env.key.value, env.primitives.sha256(i.content), prefix, CHUNK, i.content).Ok?
    ensures Packed(env, i.encrypt, prefix, i.content).Ok? ==>
      var (file, encrypted) := Packed(env, i.encrypt, prefix, i.content).value;
      (encrypted <==> Asked(env, i)) &&
      if encrypted then
        env.key.Some? && |file| >= 7 && file[..7] == MAGIC &&
        Decrypt(env.key.value, env.primitives.sha256, file, env.primitives.sha256(i.content)) == Ok(i.content)
      else file == i.content
  {
    hide Encrypt, Decrypt, Laws;
    if Asked(env, i) && env.key.Some? && Packed(env, i.encrypt, prefix, i.content).Ok? {
      EncryptDecrypt(env.key.value, env.primitives.sha256, prefix, CHUNK, i.content);
      StartsWithMagic(env.key.value, env.primitives.sha256(i.content), prefix, CHUNK, i.content);
    }
  }

  /** An add goes through exactly when its classification is a known one and its content is stored
      already, or need not be encrypted, or can be. */
  lemma AddSucceedsIff<N>(env: Env<N>, s: Repo<N>, i: Ingest, evidenceId: string, prefix: Bytes, time: string)
    requires EnvLawful(env) && Inv(env, s) && |prefix| == 8
    ensures var d := env.primitives.sha256(i.content);
      AddFile(env, s, i, evidenceId, prefix, time).result.Ok? <==>
        i.classification.Some? &&
        (d in s.objects || (Asked(env, i) ==> env.key.Some? && Encrypt(env.key.value, d, prefix, CHUNK, i.content).Ok?))
  {
    hide Packed, Encrypt, Inv, EnvLawful, Audit, IngestDetails, Asked;
    NewFile(env, i, prefix);
    if i.classification.Some? && WithObject(env, s, i.content, i.classification.value, i.encrypt, prefix).Ok? {
      var t := WithObject(env, s, i.content, i.classification.value, i.encrypt, prefix).value;
      var d := env.primitives.sha256(i.content);
      var row := EvidenceRow(i.caseId, d, i.name, i.classification.value, i.retentionUntil);
      InvChained(env, s);
      AuditKeeps(env, t.(evidence := t.evidence[evidenceId := row]), time, i.actor, "evidence_ingested",
                 IngestDetails(env, row, evidenceId, |i.content|), evidenceId);
    }
  }

  lemma AddStores<N>(env: Env<N>, s: Repo<N>, i: Ingest, evidenceId: string, prefix: Bytes, time: string)
    requires EnvLawful(env) && Inv(env, s) && |prefix| == 8 && evidenceId !in s.evidence
    ensures var t, d := AddFile(env, s, i, evidenceId, prefix, time).repo, env.primitives.sha256(i.content);
      && (forall o, e, c :: Keeps(env, s, o, e, c) ==> Keeps(env, t, o, e, c))
      && (forall o :: o in t.objects && o !in s.objects ==>
            o == d && evidenceId in t.evidence && Keeps(env, t, d, Asked(env, i), i.content))
  {
    hide Packed, Encrypt, Decrypt, EnvLawful, Audit, IngestDetails, Asked, Inv;
    AddKeepsInv(env, s, i, evidenceId, prefix, time);
    var t, d := AddFile(env, s, i, evidenceId, prefix, time).repo, env.primitives.sha256(i.content);
    if AddFile(env, s, i, evidenceId, prefix, time).result.Ok? {
      AddedTables(env, s, i, evidenceId, prefix, time);
      NewFile(env, i, prefix);
      forall o, e, c | Keeps(env, s, o, e, c) ensures Keeps(env, t, o, e, c) {
        StoredUnder(env, s, o);
        if ObjectPath(o) == ObjectPath(d) { ObjectPathInjective(o, d); }
      }
    }
  }

  lemma StoredUnder<N>(env: Env<N>, s: Repo<N>, d: string)
    requires Inv(env, s) && d in s.objects
    ensures s.objects[d].storedPath == ObjectPath(d)
  {
    assert ObjectGood(env, s, d);
  }

  /** The object and file tables after an add that went through. */
  lemma AddedTables<N>(env: Env<N>, s: Repo<N>, i: Ingest, evidenceId: string, prefix: Bytes, time: string)
    requires AddFile(env, s, i, evidenceId, prefix, time).result.Ok?
    ensures var t, d := AddFile(env, s, i, evidenceId, prefix, time).repo, env.primitives.sha256(i.content);
      && t.objects.Keys == s.objects.Keys + {d}
      && (forall o :: o in s.objects ==>
            t.objects[o].(storage := s.objects[o].storage) == s.objects[o])
      && (d in s.objects ==> t.files == s.files)
      && (d !in s.objects ==>
            Packed(env, i.encrypt, prefix, i.content).Ok? &&
            t.objects[d].storedPath == ObjectPath(d) && t.objects[d].size == |i.content| &&
            var (file, encrypted) := Packed(env, i.encrypt, prefix, i.content).value;
            t.objects[d].encrypted == encrypted && t.files == s.files[ObjectPath(d) := file])
  {
    hide Packed, IngestDetails, ObjectPath, AuditLog.Audited;
  }

  lemma OthersStore<N>(env: Env<N>, s: Repo<N>, op: Op)
    requires !op.DoAdd?
    ensures var t := Apply(env, s, op); t.objects == s.objects && t.files == s.files
  {
    hide ReadObject, AuditLog.Audited;
  }

  // ---- Whole runs ----

  lemma AddedEarlierIsStored<N>(env: Env<N>, ops: seq<Op>, i: nat, d: string)
    requires EnvLawful(env) && LegalRun(env, ops) && Added(env, ops, i, d)
    ensures d in Run(env, ops).objects
  {
    hide EnvLawful, Apply, Inv;
    PrefixIsLegal(env, ops, i + 1);
    assert ops[..i + 1][..i] == ops[..i];
    PrefixIsLegal(env, ops[..i + 1], i);
    var before, op := Run(env, ops[..i]), ops[i];
    RunKeepsInv(env, ops[..i]);
    ApplyAdd(env, before, op);
    assert Run(env, ops[..i + 1]) == Apply(env, before, op);
    AddKeepsInv(env, before, op.ingest, op.evidenceId, op.prefix, op.time);
    RunKeepsInv(env, ops[..i + 1]);
    RowHasObject(env, Run(env, ops[..i + 1]), op.evidenceId);
    RunGrows(env, ops, i + 1);
  }

  lemma RowHasObject<N>(env: Env<N>, s: Repo<N>, e: string)
    requires Inv(env, s) && e in s.evidence
    ensures s.evidence[e].sha256 in s.objects
  {
  }

  /** Whatever has happened since, an object is encrypted exactly when the add that first stored it
      asked for that or, saying nothing, found a key; and its file is still that add's content. */
  lemma {:induction false} EncryptedAsAsked<N>(env: Env<N>, ops: seq<Op>, d: string) returns (j: nat)
    requires EnvLawful(env) && LegalRun(env, ops) && d in Run(env, ops).objects
    ensures j < |ops| && ops[j].DoAdd? && FirstAdded(env, ops, j, d)
    ensures Keeps(env, Run(env, ops), d, Asked(env, ops[j].ingest), ops[j].ingest.content)
  {
    hide EnvLawful, Apply, Keeps, Added, Legal, Asked, Inv;
    assert ops != [];
    var before, op := ops[..|ops| - 1], ops[|ops| - 1];
    RunKeepsInv(env, before);
    if op.DoAdd? {
      ApplyAdd(env, Run(env, before), op);
      LegalAdd(Run(env, before), op);
      AddStores(env, Run(env, before), op.ingest, op.evidenceId, op.prefix, op.time);
    } else {
      OthersStore(env, Run(env, before), op);
    }
    if d in Run(env, before).objects {
      j := EncryptedAsAsked(env, before, d);
      forall i: nat | i <= j ensures Added(env, ops, i, d) <==> Added(env, before, i, d) {
        AddedPrefix(env, ops, i, d);
      }
      if !op.DoAdd? {
        SameFiles(env, Run(env, before), Run(env, ops), d, Asked(env, ops[j].ingest), ops[j].ingest.content);
      }
    } else {
      j := |ops| - 1;
      LastAdded(env, ops, d);
      forall i: nat | i < j ensures !Added(env, ops, i, d) {
        AddedPrefix(env, ops, i, d);
        if Added(env, before, i, d) { AddedEarlierIsStored(env, before, i, d); }
      }
    }
  }

  lemma LegalAdd<N>(s: Repo<N>, op: Op)
    requires Legal(s, op) && op.DoAdd?
    ensures op.evidenceId !in s.evidence && |op.prefix| == 8
  {
  }

  lemma AddedPrefix<N>(env: Env<N>, ops: seq<Op>, i: nat, d: string)
    requires i < |ops| - 1
    ensures Added(env, ops, i, d) <==> Added(env, ops[..|ops| - 1], i, d)
  {
    hide Run;
    assert ops[..|ops| - 1][..i + 1] == ops[..i + 1];
  }

  lemma SameFiles<N>(env: Env<N>, s: Repo<N>, t: Repo<N>, d: string, e: bool, content: Bytes)
    requires Keeps(env, s, d, e, content) && t.objects == s.objects && t.files == s.files
    ensures Keeps(env, t, d, e, content)
  {
    hide Decrypt;
  }

  lemma LastAdded<N>(env: Env<N>, ops: seq<Op>, d: string)
    requires ops != []
    requires var op := ops[|ops| - 1];
      op.DoAdd? && env.primitives.sha256(op.ingest.content) == d && op.evidenceId in Run(env, ops).evidence
    ensures Added(env, ops, |ops| - 1, d)
  {
    hide Run;
    assert ops[..|ops|] == ops;
  }

  /** With a key, and no add that declines encryption, nothing is stored in clear. */
  lemma NothingInClear<N>(env: Env<N>, ops: seq<Op>, d: string)
    requires EnvLawful(env) && LegalRun(env, ops) && d in Run(env, ops).objects && env.key.Some?
    requires forall i :: 0 <= i < |ops| && ops[i].DoAdd? ==> ops[i].ingest.encrypt != Some(false)
    ensures Run(env, ops).objects[d].encrypted
  {
    hide Run, LegalRun;
    var j := EncryptedAsAsked(env, ops, d);
    assert 0 <= j < |ops| && ops[j].DoAdd?;
    var asked := ops[j].ingest.encrypt;
    assert asked != Some(false);
    match asked {
      case None =>
      case Some(yes) => assert yes;
    }
  }
}
