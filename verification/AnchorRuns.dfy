/** Anchors of a running repository: what it does afterwards never spoils them. */
module AnchorRuns {
  import opened Wrappers
  import opened Encodings
  import opened Dictionaries
  import opened Repository
  import opened RepositoryRuns
  import opened Anchor
  import AuditLog

  /** What an anchor reads of a repository: its audit file and its objects table. */
  function ViewOf<N>(s: Repo<N>): (v: View) { View(SeenAll(s.audit), s.objects.Keys) }

  /** The audit file is only appended to, and no object leaves the table. */
  ghost predicate Grows<N>(s: Repo<N>, t: Repo<N>) { s.audit <= t.audit && s.objects.Keys <= t.objects.Keys }

  lemma AuditGrows<N, T>(
      env: Env<N>, s: Repo<N>, time: string, actor: string, action: string, details: Dict<N>, value: T)
    ensures Grows(s, Audit(env, s, time, actor, action, details, value).repo)
  {
    hide AuditLog.LastHash, AuditLog.Entry;
  }

  lemma AddGrows<N>(env: Env<N>, s: Repo<N>, i: Ingest, evidenceId: string, prefix: Bytes, time: string)
    ensures Grows(s, AddFile(env, s, i, evidenceId, prefix, time).repo)
  {
    hide Audit, IngestDetails, Packed, Upgraded;
    if i.classification.Some? && WithObject(env, s, i.content, i.classification.value, i.encrypt, prefix).Ok? {
      var c := i.classification.value;
      var row := EvidenceRow(i.caseId, env.primitives.sha256(i.content), i.name, c, i.retentionUntil);
      var t := WithObject(env, s, i.content, c, i.encrypt, prefix).value;
      AuditGrows(env, t.(evidence := t.evidence[evidenceId := row]), time, i.actor, "evidence_ingested",
                 IngestDetails(env, row, evidenceId, |i.content|), evidenceId);
    }
  }

  lemma ApplyGrows<N>(env: Env<N>, s: Repo<N>, op: Op)
    ensures Grows(s, Apply(env, s, op))
  {
    hide Audit, AddFile, ReadObject, Grows;
    assert Grows(s, s) by { GrowsReflexive(s); }
    match op {
      case DoAdd(i, e, prefix, time) => AddGrows(env, s, i, e, prefix, time);
      case DoExtract(e, destination, actor, time) =>
        if e in s.evidence && s.evidence[e].sha256 in s.objects && ReadObject(env, s, s.evidence[e].sha256).Ok? {
          AuditGrows(env, s, time, actor, "evidence_extracted", ExtractDetails(s.evidence[e], e, destination),
                     ReadObject(env, s, s.evidence[e].sha256).value);
        }
      case DoHold(c, about, reason, actor, h, time) =>
        var row := HoldRow(c, about, reason, actor, None);
        var t := s.(holds := s.holds[h := row]);
        AuditGrows(env, t, time, actor, "legal_hold_created", HoldDetails(h, row), h);
        SameTablesGrow(s, t, Apply(env, s, op));
      case DoRelease(h, actor, time) =>
        if h in s.holds && s.holds[h].releasedBy == None {
          var t := s.(holds := s.holds[h := s.holds[h].(releasedBy := Some(actor))]);
          AuditGrows(env, t, time, actor, "legal_hold_released", ReleaseDetails(h), ());
          SameTablesGrow(s, t, Apply(env, s, op));
        }
    }
  }

  lemma GrowsReflexive<N>(s: Repo<N>)
    ensures Grows(s, s)
  {
  }

  lemma SameTablesGrow<N>(s: Repo<N>, t: Repo<N>, u: Repo<N>)
    requires t.audit == s.audit && t.objects == s.objects && Grows(t, u)
    ensures Grows(s, u)
  {
  }

  lemma {:induction false} RunGrows<N>(env: Env<N>, ops: seq<Op>, n: nat)
    requires n <= |ops|
    ensures Grows(Run(env, ops[..n]), Run(env, ops))
    decreases |ops|
  {
    hide Apply;
    if n == |ops| {
      assert ops[..n] == ops;
    } else {
      var before := ops[..|ops| - 1];
      assert before[..n] == ops[..n];
      RunGrows(env, before, n);
      ApplyGrows(env, Run(env, before), ops[|ops| - 1]);
    }
  }

  lemma {:induction false} SeenOfPrefix<N>(a: seq<Line<N>>, b: seq<Line<N>>)
    requires a <= b
    ensures SeenAll(a) <= SeenAll(b)
    decreases |b|
  {
    hide Seen;
    if a != b {
      assert a <= b[..|b| - 1];
      SeenOfPrefix(a, b[..|b| - 1]);
    }
  }

  lemma {:induction false} PrefixIsLegal<N>(env: Env<N>, ops: seq<Op>, n: nat)
    requires LegalRun(env, ops) && n <= |ops|
    ensures LegalRun(env, ops[..n])
    decreases |ops|
  {
    hide Run, Legal;
    if n == |ops| {
      assert ops[..n] == ops;
    } else {
      assert ops[..|ops| - 1][..n] == ops[..n];
      PrefixIsLegal(env, ops[..|ops| - 1], n);
    }
  }

  /** An anchor can be made at any moment of any legal run, and from then on it verifies cleanly
      however the run continues. */
  lemma AnchorOutlivesRun<N>(env: Env<N>, h: Bytes -> Bytes, ops: seq<Op>, n: nat, list: seq<string>)
    requires EnvLawful(env) && LegalRun(env, ops) && n <= |ops|
    requires Listing(ViewOf(Run(env, ops[..n])).objects, list)
    ensures Readable(ViewOf(Run(env, ops[..n])).audit)
    ensures Clean(h, Create(h, ViewOf(Run(env, ops[..n])), list), ViewOf(Run(env, ops)))
  {
    hide Inv, EnvLawful, Clean, Create, Listing, Readable, Run, SeenAll, AuditLog.Check;
    PrefixIsLegal(env, ops, n);
    RunIsReadable(env, ops[..n]);
    RunIsReadable(env, ops);
    RunGrows(env, ops, n);
    SeenOfPrefix(Run(env, ops[..n]).audit, Run(env, ops).audit);
    AnchorSurvivesGrowth(h, ViewOf(Run(env, ops[..n])), list, ViewOf(Run(env, ops)));
  }

  lemma RunIsReadable<N>(env: Env<N>, ops: seq<Op>)
    requires EnvLawful(env) && LegalRun(env, ops)
    ensures Readable(SeenAll(Run(env, ops).audit))
  {
    hide Inv, EnvLawful, Run, SeenAll, Readable;
    RunKeepsInv(env, ops);
    InvChained(env, Run(env, ops));
    CheckedIsReadable(env.primitives, Run(env, ops).audit);
  }
}
