/** The evidence rows and the audit file of a repository, read off the operations that made them. */
module RepositoryHistory {
  import opened Wrappers
  import opened Encodings
  import opened CanonicalJson
  import opened Dictionaries
  import opened Repository
  import opened RepositoryRuns
  import AuditLog

  // ---- Evidence rows ----

  /** The row says of the evidence what the add said that made it. */
  ghost predicate RowSays<N>(env: Env<N>, op: Op, row: EvidenceRow) {
    && op.DoAdd? && row.caseId == op.ingest.caseId && row.sha256 == env.primitives.sha256(op.ingest.content)
    && row.name == op.ingest.name && op.ingest.classification == Some(row.classification)
    && row.retentionUntil == op.ingest.retentionUntil
  }

  ghost predicate MadeBy<N>(env: Env<N>, ops: seq<Op>, k: nat, e: string, row: EvidenceRow) {
    k < |ops| && ops[k].DoAdd? && ops[k].evidenceId == e && RowSays(env, ops[k], row)
  }

  lemma AddedRow<N>(env: Env<N>, s: Repo<N>, op: Op)
    requires EnvLawful(env) && Inv(env, s) && Legal(s, op)
    ensures var t := Apply(env, s, op);
      && (forall e :: e in s.evidence ==> e in t.evidence && t.evidence[e] == s.evidence[e])
      && (forall e :: e in t.evidence && e !in s.evidence ==>
            op.DoAdd? && op.evidenceId == e && RowSays(env, op, t.evidence[e]))
  {
    hide Inv, EnvLawful, AuditLog.Audited, ReadObject, WithObject, IngestDetails;
    ApplyKeepsInv(env, s, op);
    if op.DoAdd? { AddKeepsInv(env, s, op.ingest, op.evidenceId, op.prefix, op.time); }
  }

  /** After any run every evidence row is the one its add asked for, and no row is ever changed. */
  lemma {:induction false} RowsFollowHistory<N>(env: Env<N>, ops: seq<Op>, e: string) returns (k: nat)
    requires EnvLawful(env) && LegalRun(env, ops) && e in Run(env, ops).evidence
    ensures MadeBy(env, ops, k, e, Run(env, ops).evidence[e])
  {
    hide Apply, EnvLawful, Inv, Legal, RowSays;
    assert ops != [];
    var n := |ops| - 1;
    var before := ops[..n];
    RunKeepsInv(env, before);
    AddedRow(env, Run(env, before), ops[n]);
    if e in Run(env, before).evidence {
      k := RowsFollowHistory(env, before, e);
    } else {
      k := n;
    }
  }

  // ---- The audit file ----

  /** The operation left an entry: an add that went through, an extract of evidence there is, a hold,
      or the release of a hold that was active. */
  ghost predicate Recorded<N>(env: Env<N>, before: seq<Op>, op: Op) {
    match op
    case DoAdd(_, e, _, _) => e in Run(env, before + [op]).evidence
    case DoExtract(e, _, _, _) => e in Run(env, before).evidence
    case DoHold(_, _, _, _, _, _) => true
    case DoRelease(h, _, _) => HoldActive(before, h)
  }

  /** What its details say. */
  ghost predicate Details<N>(env: Env<N>, before: seq<Op>, op: Op, d: Dict<N>) {
    match op
    case DoAdd(i, e, _, _) =>
      && Get(d, "case_id") == Str(i.caseId) && Get(d, "evidence_id") == Str(e) && Get(d, "logical_name") == Str(i.name)
      && Get(d, "sha256") == Str(env.primitives.sha256(i.content))
      && Get(d, "size") == Num(env.primitives.fromNat(|i.content|))
      && i.classification.Some? && Get(d, "classification") == Str(ClassName(i.classification.value))
    case DoExtract(e, destination, _, _) =>
      && e in Run(env, before).evidence
      && Get(d, "case_id") == Str(Run(env, before).evidence[e].caseId) && Get(d, "evidence_id") == Str(e)
      && Get(d, "sha256") == Str(Run(env, before).evidence[e].sha256) && Get(d, "destination") == Str(destination)
    case DoHold(c, about, reason, _, h, _) =>
      && Get(d, "hold_id") == Str(h) && Get(d, "case_id") == Str(c) && Get(d, "reason") == Str(reason)
      && Get(d, "evidence_id") == (match about case Some(e) => Str(e) case None => Null)
    case DoRelease(h, _, _) => Get(d, "hold_id") == Str(h)
  }

  function Action(op: Op): (a: string) {
    match op
    case DoAdd(_, _, _, _) => "evidence_ingested"
    case DoExtract(_, _, _, _) => "evidence_extracted"
    case DoHold(_, _, _, _, _, _) => "legal_hold_created"
    case DoRelease(_, _, _) => "legal_hold_released"
  }

  function Actor(op: Op): (a: string) { if op.DoAdd? then op.ingest.actor else op.actor }

  /** The line is an entry about the operation. */
  ghost predicate Records<N>(env: Env<N>, before: seq<Op>, op: Op, l: Line<N>) {
    && l.Parsed? && l.value.Obj?
    && var d := l.value.members;
    && Get(d, "actor") == Str(Actor(op)) && Get(d, "action") == Str(Action(op))
    && Get(d, "timestamp_utc") == Str(op.time)
    && Get(d, "details").Obj? && Details(env, before, op, Get(d, "details").members)
  }

  lemma AuditRecords<N, T>(
      env: Env<N>, s: Repo<N>, time: string, actor: string, action: string, details: Dict<N>, value: T)
    returns (l: Line<N>)
    requires AuditLog.Check(env.primitives, s.audit).Chained?
    ensures Audit(env, s, time, actor, action, details, value).repo == s.(audit := s.audit + [l])
    ensures l.Parsed? && l.value.Obj? &&
      var d := l.value.members;
      Get(d, "actor") == Str(actor) && Get(d, "action") == Str(action) && Get(d, "timestamp_utc") == Str(time) &&
      Get(d, "details") == Obj(details)
  {
    hide Get, AuditLog.Entry, AuditLog.Core, AuditLog.Check, AuditLog.LastHash;
    AuditLog.AuditKeepsChain(env.primitives, s.audit, time, actor, action, details);
    var prev := AuditLog.LastHash(s.audit).value;
    AuditLog.EntrySays(env.primitives, time, actor, action, details, prev);
    l := Parsed(Obj(AuditLog.Entry(env.primitives, AuditLog.Core(time, actor, action, details, prev))));
  }

  lemma IngestSays<N>(env: Env<N>, r: EvidenceRow, e: string, size: nat)
    ensures var d := IngestDetails(env, r, e, size);
      && Get(d, "case_id") == Str(r.caseId) && Get(d, "evidence_id") == Str(e) && Get(d, "logical_name") == Str(r.name)
      && Get(d, "sha256") == Str(r.sha256) && Get(d, "classification") == Str(ClassName(r.classification))
      && Get(d, "size") == Num(env.primitives.fromNat(size))
  {
    hide Get, ClassName;
    var d := IngestDetails(env, r, e, size);
    GetAt(d, 0);
    GetAt(d, 1);
    GetAt(d, 2);
    GetAt(d, 3);
    GetAt(d, 4);
    GetAt(d, 5);
  }

  lemma ExtractSays<N>(r: EvidenceRow, e: string, destination: string)
    ensures var d := ExtractDetails<N>(r, e, destination);
      && Get(d, "case_id") == Str(r.caseId) && Get(d, "evidence_id") == Str(e)
      && Get(d, "sha256") == Str(r.sha256) && Get(d, "destination") == Str(destination)
  {
    hide Get;
    var d := ExtractDetails<N>(r, e, destination);
    GetAt(d, 0);
    GetAt(d, 1);
    GetAt(d, 2);
    GetAt(d, 3);
  }

  lemma HoldSays<N>(h: string, r: HoldRow)
    ensures var d := HoldDetails<N>(h, r);
      && Get(d, "hold_id") == Str(h) && Get(d, "case_id") == Str(r.caseId) && Get(d, "reason") == Str(r.reason)
      && Get(d, "evidence_id") == (match r.evidenceId case Some(e) => Str(e) case None => Null)
    ensures Get(ReleaseDetails<N>(h), "hold_id") == Str(h)
  {
    hide Get;
    var d := HoldDetails<N>(h, r);
    GetAt(d, 0);
    GetAt(d, 1);
    GetAt(d, 2);
    GetAt(d, 3);
    GetAt(ReleaseDetails<N>(h), 0);
  }

  /** An operation appends an entry about itself when it is one to be recorded, and otherwise leaves
      the file alone. */
  lemma OperationRecords<N>(env: Env<N>, before: seq<Op>, op: Op)
    requires EnvLawful(env) && LegalRun(env, before) && Legal(Run(env, before), op)
    ensures var s, t := Run(env, before), Run(env, before + [op]);
      if Recorded(env, before, op) then
        exists l :: t.audit == s.audit + [l] && Records(env, before, op, l)
      else t.audit == s.audit
  {
    hide EnvLawful, Inv, LegalRun, Run, HoldActive, Details, ReadObject, WithObject, AuditLog.Audited, Get;
    var s := Run(env, before);
    RunStep(env, before, op);
    RunKeepsInv(env, before);
    InvChained(env, s);
    match op {
      case DoAdd(i, e, prefix, time) => AddRecords(env, before, op);
      case DoExtract(e, destination, actor, time) => ExtractRecords(env, before, op);
      case DoHold(c, about, reason, actor, h, time) => HoldRecords(env, before, op);
      case DoRelease(h, actor, time) => ReleaseRecords(env, before, op);
    }
  }

  lemma RunStep<N>(env: Env<N>, before: seq<Op>, op: Op)
    ensures Run(env, before + [op]) == Apply(env, Run(env, before), op)
  {
    hide Apply;
    assert (before + [op])[..|before|] == before;
  }

  lemma AddRecords<N>(env: Env<N>, before: seq<Op>, op: Op)
    requires op.DoAdd? && EnvLawful(env) && LegalRun(env, before) && Legal(Run(env, before), op)
    ensures var s, t := Run(env, before), Run(env, before + [op]);
      if Recorded(env, before, op) then exists l :: t.audit == s.audit + [l] && Records(env, before, op, l)
      else t.audit == s.audit
  {
    hide EnvLawful, Inv, LegalRun, Run, WithObject, Audit, Get, IngestDetails;
    var s, i := Run(env, before), op.ingest;
    RunStep(env, before, op);
    RunKeepsInv(env, before);
    InvChained(env, s);
    AddKeepsInv(env, s, i, op.evidenceId, op.prefix, op.time);
    if i.classification.Some? && WithObject(env, s, i.content, i.classification.value, i.encrypt, op.prefix).Ok? {
      var t := WithObject(env, s, i.content, i.classification.value, i.encrypt, op.prefix).value;
      var d := env.primitives.sha256(i.content);
      var row := EvidenceRow(i.caseId, d, i.name, i.classification.value, i.retentionUntil);
      SameAudit(env, s, i.content, i.classification.value, i.encrypt, op.prefix);
      var l := AuditRecords(
        env, t.(evidence := t.evidence[op.evidenceId := row]), op.time, i.actor, "evidence_ingested",
        IngestDetails(env, row, op.evidenceId, |i.content|), op.evidenceId);
      IngestSays(env, row, op.evidenceId, |i.content|);
      assert Records(env, before, op, l);
    }
  }

  lemma SameAudit<N>(
      env: Env<N>, s: Repo<N>, content: Bytes, c: Classification, encrypt: Option<bool>, prefix: Bytes)
    requires WithObject(env, s, content, c, encrypt, prefix).Ok?
    ensures WithObject(env, s, content, c, encrypt, prefix).value.audit == s.audit
  {
    hide Packed;
  }

  lemma RowReads<N>(env: Env<N>, s: Repo<N>, e: string)
    requires Inv(env, s) && e in s.evidence
    ensures s.evidence[e].sha256 in s.objects && ReadObject(env, s, s.evidence[e].sha256).Ok?
  {
    hide ReadObject;
    assert ObjectGood(env, s, s.evidence[e].sha256);
  }

  lemma ExtractRecords<N>(env: Env<N>, before: seq<Op>, op: Op)
    requires op.DoExtract? && EnvLawful(env) && LegalRun(env, before)
    ensures var s, t := Run(env, before), Run(env, before + [op]);
      if Recorded(env, before, op) then exists l :: t.audit == s.audit + [l] && Records(env, before, op, l)
      else t.audit == s.audit
  {
    hide EnvLawful, LegalRun, Run, ReadObject, Audit, Get, ExtractDetails, Inv;
    var s, e := Run(env, before), op.evidenceId;
    RunStep(env, before, op);
    RunKeepsInv(env, before);
    InvChained(env, s);
    if e in s.evidence {
      RowReads(env, s, e);
      var plain := ReadObject(env, s, s.evidence[e].sha256).value;
      var l := AuditRecords(env, s, op.time, op.actor, "evidence_extracted",
                            ExtractDetails(s.evidence[e], e, op.destination), plain);
      ExtractSays<N>(s.evidence[e], e, op.destination);
      assert Records(env, before, op, l);
    }
  }

  lemma HoldRecords<N>(env: Env<N>, before: seq<Op>, op: Op)
    requires op.DoHold? && EnvLawful(env) && LegalRun(env, before)
    ensures exists l :: Run(env, before + [op]).audit == Run(env, before).audit + [l] && Records(env, before, op, l)
  {
    hide EnvLawful, Inv, LegalRun, Run, Audit, Get, HoldDetails;
    var s := Run(env, before);
    RunStep(env, before, op);
    RunKeepsInv(env, before);
    InvChained(env, s);
    var row := HoldRow(op.caseId, op.about, op.reason, op.actor, None);
    var l := AuditRecords(env, s.(holds := s.holds[op.holdId := row]), op.time, op.actor, "legal_hold_created",
                          HoldDetails(op.holdId, row), op.holdId);
    HoldSays<N>(op.holdId, row);
    assert Records(env, before, op, l);
  }

  lemma ReleaseRecords<N>(env: Env<N>, before: seq<Op>, op: Op)
    requires op.DoRelease? && EnvLawful(env) && LegalRun(env, before)
    ensures var s, t := Run(env, before), Run(env, before + [op]);
      if Recorded(env, before, op) then exists l :: t.audit == s.audit + [l] && Records(env, before, op, l)
      else t.audit == s.audit
  {
    hide EnvLawful, Inv, LegalRun, Run, Audit, Get, ReleaseDetails, HoldActive;
    var s, h := Run(env, before), op.holdId;
    RunStep(env, before, op);
    RunKeepsInv(env, before);
    InvChained(env, s);
    HoldsFollowHistory(env, before, h);
    if HoldActive(before, h) {
      var row := s.holds[h].(releasedBy := Some(op.actor));
      var l := AuditRecords(env, s.(holds := s.holds[h := row]), op.time, op.actor, "legal_hold_released",
                            ReleaseDetails(h), ());
      HoldSays<N>(h, row);
      assert Records(env, before, op, l);
    }
  }

  /** The places of the recorded operations. */
  ghost function RecordedPlaces<N>(env: Env<N>, ops: seq<Op>): (r: seq<nat>)
    ensures forall i :: 0 <= i < |r| ==> r[i] < |ops|
  {
    if ops == [] then []
    else
      var n := |ops| - 1;
      RecordedPlaces(env, ops[..n]) + if Recorded(env, ops[..n], ops[n]) then [n] else []
  }

  /** After any run the audit file holds one entry for every recorded operation, in their order, each
      saying who did what, when and to what. */
  lemma {:induction false} AuditTellsHistory<N>(env: Env<N>, ops: seq<Op>)
    requires EnvLawful(env) && LegalRun(env, ops)
    ensures var r, lines := RecordedPlaces(env, ops), Run(env, ops).audit;
      |lines| == |r| && forall i :: 0 <= i < |r| ==> Records(env, ops[..r[i]], ops[r[i]], lines[i])
  {
    hide EnvLawful, Recorded, Records, Apply, Legal;
    if ops != [] {
      var n := |ops| - 1;
      var before := ops[..n];
      AuditTellsHistory(env, before);
      OperationRecords(env, before, ops[n]);
      assert ops == before + [ops[n]];
      assert forall k: nat :: k < n ==> before[..k] == ops[..k] && before[k] == ops[k];
    }
  }
}
