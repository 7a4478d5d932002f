/** The local immutable object store: content by digest, retention, legal hold. */
module ObjectStore {
  import opened Wrappers
  import opened Encodings

  datatype Error = NotFound | HashMismatch

  const DAY: int := 86400

  datatype Meta = Meta(
    size: nat, tenant: string, caseId: string, classification: string,
    created: int, retention: int, hold: bool, holdChanged: Option<int>)

  datatype State = State(objects: map<string, Bytes>, meta: map<string, Meta>)

  /** One upload, at a time. */
  datatype Upload = Upload(
    data: Bytes, tenant: string, caseId: string, classification: string, days: int, hold: bool, now: int)

  datatype Op = Put(upload: Upload) | SetHold(digest: string, on: bool, now: int)

  function Until(u: Upload): int { u.now + u.days * DAY }

  /** The metadata of an upload, never weaker in retention or hold than what was there. */
  function Merged(u: Upload, prior: Option<Meta>): (m: Meta) {
    var m := Meta(|u.data|, u.tenant, u.caseId, u.classification, u.now, Until(u), u.hold, None);
    match prior
    case None => m
    case Some(o) =>
      m.(hold := m.hold || o.hold, retention := if o.retention > m.retention then o.retention else m.retention)
  }

  function Lookup<V>(m: map<string, V>, k: string): (r: Option<V>) { if k in m then Some(m[k]) else None }

  /** The store after one operation; a failing one changes nothing. */
  function Apply(sha256: Bytes -> string, s: State, op: Op): (t: State) {
    match op
    case Put(u) =>
      var d := sha256(u.data);
      if d in s.objects && sha256(s.objects[d]) != d then s
      else
        State(if d in s.objects then s.objects else s.objects[d := u.data],
              s.meta[d := Merged(u, Lookup(s.meta, d))])
    case SetHold(d, on, now) =>
      if d !in s.meta then s else s.(meta := s.meta[d := s.meta[d].(hold := on, holdChanged := Some(now))])
  }

  class LocalImmutableStore {
    const sha256: Bytes -> string
    var objects: map<string, Bytes>
    var meta: map<string, Meta>

    function Contents(): (s: State)
      reads this
    {
      State(objects, meta)
    }

    constructor (sha256: Bytes -> string)
      ensures this.sha256 == sha256 && Contents() == State(map[], map[])
    {
      this.sha256, objects, meta := sha256, map[], map[];
    }

    method Put(u: Upload) returns (r: Result<Meta, Error>)
      modifies this
      ensures Contents() == Apply(sha256, old(Contents()), Op.Put(u))
      ensures var d := sha256(u.data);
        r == if d in old(objects) && sha256(old(objects)[d]) != d then Err(HashMismatch) else Ok(meta[d])
    {
      var digest := sha256(u.data);
      if digest !in objects {
        objects := objects[digest := u.data];
      } else if sha256(objects[digest]) != digest {
        return Err(HashMismatch);
      }
      var m := Meta(|u.data|, u.tenant, u.caseId, u.classification, u.now, u.now + u.days * DAY, u.hold, None);
      if digest in meta {
        var before := meta[digest];
        if before.hold { m := m.(hold := true); }
        if before.retention > m.retention { m := m.(retention := before.retention); }
      }
      meta := meta[digest := m];
      r := Ok(m);
    }

    method Get(digest: string) returns (r: Result<Bytes, Error>)
      ensures r.Ok? <==> digest in objects && sha256(objects[digest]) == digest
      ensures r.Ok? ==> r.value == objects[digest]
      ensures r == Err(NotFound) <==> digest !in objects
    {
      if digest !in objects { return Err(NotFound); }
      if sha256(objects[digest]) != digest { return Err(HashMismatch); }
      r := Ok(objects[digest]);
    }

    method SetLegalHold(digest: string, on: bool, now: int) returns (r: Result<Meta, Error>)
      modifies this
      ensures Contents() == Apply(sha256, old(Contents()), SetHold(digest, on, now))
      ensures r == if digest in old(meta) then Ok(meta[digest]) else Err(NotFound)
    {
      if digest !in meta { return Err(NotFound); }
      meta := meta[digest := meta[digest].(hold := on, holdChanged := Some(now))];
      r := Ok(meta[digest]);
    }
  }

  // ---- Histories ----

  function Run(sha256: Bytes -> string, h: seq<Op>): (s: State) {
    if h == [] then State(map[], map[]) else Apply(sha256, Run(sha256, h[..|h| - 1]), h[|h| - 1])
  }

  predicate Puts(sha256: Bytes -> string, op: Op, d: string) { op.Put? && sha256(op.upload.data) == d }

  /** The digest is in the store before the k-th operation. */
  ghost predicate Stored(sha256: Bytes -> string, h: seq<Op>, d: string, k: int) {
    exists i :: 0 <= i < k <= |h| && Puts(sha256, h[i], d)
  }

  /** The k-th operation puts a hold on the digest. */
  ghost predicate TurnsOn(sha256: Bytes -> string, h: seq<Op>, d: string, k: int) {
    && 0 <= k < |h|
    && match h[k]
       case Put(u) => Puts(sha256, h[k], d) && u.hold
       case SetHold(e, on, _) => e == d && on && Stored(sha256, h, d, k)
  }

  predicate TurnsOff(op: Op, d: string) { op.SetHold? && op.digest == d && !op.on }

  ghost predicate Held(sha256: Bytes -> string, h: seq<Op>, d: string) {
    exists k :: TurnsOn(sha256, h, d, k) && forall j :: k < j < |h| ==> !TurnsOff(h[j], d)
  }

  /** What the store holds of one digest, said of its history. */
  ghost predicate Agrees(sha256: Bytes -> string, h: seq<Op>, s: State, d: string) {
    && (d in s.objects <==> Stored(sha256, h, d, |h|)) && (d in s.meta <==> d in s.objects)
    && (d in s.objects ==>
         && sha256(s.objects[d]) == d
         && exists i :: 0 <= i < |h| && Puts(sha256, h[i], d) && h[i].upload.data == s.objects[d])
    && (d in s.meta ==>
         && (s.meta[d].hold <==> Held(sha256, h, d))
         && (forall i :: 0 <= i < |h| && Puts(sha256, h[i], d) ==> Until(h[i].upload) <= s.meta[d].retention)
         && (exists i :: 0 <= i < |h| && Puts(sha256, h[i], d) && Until(h[i].upload) == s.meta[d].retention))
  }

  lemma TurnsOnEarlier(sha256: Bytes -> string, h: seq<Op>, op: Op, d: string, k: int)
    requires k < |h|
    ensures TurnsOn(sha256, h + [op], d, k) <==> TurnsOn(sha256, h, d, k)
  {
    if 0 <= k {
      assert (h + [op])[k] == h[k];
      StoredEarlier(sha256, h, op, d, k);
    }
  }

  lemma StoredEarlier(sha256: Bytes -> string, h: seq<Op>, op: Op, d: string, k: int)
    requires k <= |h|
    ensures Stored(sha256, h + [op], d, k) <==> Stored(sha256, h, d, k)
  {
    assert forall i :: 0 <= i < |h| ==> (h + [op])[i] == h[i];
  }

  lemma HeldAfter(sha256: Bytes -> string, h: seq<Op>, op: Op, d: string)
    ensures Held(sha256, h + [op], d) <==>
      TurnsOn(sha256, h + [op], d, |h|) || (Held(sha256, h, d) && !TurnsOff(op, d))
  {
    var h' := h + [op];
    assert h'[|h|] == op && forall j :: 0 <= j < |h| ==> h'[j] == h[j];
    if Held(sha256, h', d) {
      var k :| TurnsOn(sha256, h', d, k) && forall j :: k < j < |h'| ==> !TurnsOff(h'[j], d);
      if k < |h| {
        TurnsOnEarlier(sha256, h, op, d, k);
        assert forall j :: k < j < |h| ==> !TurnsOff(h[j], d) by {
          assert forall j :: k < j < |h| ==> h'[j] == h[j];
        }
      }
    }
    if Held(sha256, h, d) && !TurnsOff(op, d) {
      var k :| TurnsOn(sha256, h, d, k) && forall j :: k < j < |h| ==> !TurnsOff(h[j], d);
      TurnsOnEarlier(sha256, h, op, d, k);
    }
  }

  lemma PutAgrees(sha256: Bytes -> string, h: seq<Op>, u: Upload, d: string)
    requires Agrees(sha256, h, Run(sha256, h), d) && Agrees(sha256, h, Run(sha256, h), sha256(u.data))
    ensures Agrees(sha256, h + [Put(u)], Apply(sha256, Run(sha256, h), Put(u)), d)
  {
    var op, s := Op.Put(u), Run(sha256, h);
    var h' := h + [op];
    var t := Apply(sha256, s, op);
    assert h'[|h|] == op && forall i :: 0 <= i < |h| ==> h'[i] == h[i];
    HeldAfter(sha256, h, op, d);
    StoredEarlier(sha256, h, op, d, |h|);
    if sha256(u.data) == d {
      assert Puts(sha256, h'[|h|], d) && Stored(sha256, h', d, |h'|);
      if d in s.meta {
        var i :| 0 <= i < |h| && Puts(sha256, h[i], d) && Until(h[i].upload) == s.meta[d].retention;
        assert Puts(sha256, h'[i], d);
        var k :| 0 <= k < |h| && Puts(sha256, h[k], d) && h[k].upload.data == s.objects[d];
        assert Puts(sha256, h'[k], d);
      }
    } else {
      Untouched(sha256, h, op, d);
    }
  }

  lemma Untouched(sha256: Bytes -> string, h: seq<Op>, op: Op, d: string)
    requires Agrees(sha256, h, Run(sha256, h), d) && !Puts(sha256, op, d) && !(op.SetHold? && op.digest == d)
    ensures Agrees(sha256, h + [op], Apply(sha256, Run(sha256, h), op), d)
  {
    hide Run, Apply, Held, Until;
    var s, h' := Run(sha256, h), h + [op];
    OtherDigest(sha256, s, op, d);
    assert h'[|h|] == op && forall i :: 0 <= i < |h| ==> h'[i] == h[i];
    HeldAfter(sha256, h, op, d);
    StoredEarlier(sha256, h, op, d, |h|);
    if d in s.meta {
      var i :| 0 <= i < |h| && Puts(sha256, h[i], d) && Until(h[i].upload) == s.meta[d].retention;
      assert Puts(sha256, h'[i], d);
      var k :| 0 <= k < |h| && Puts(sha256, h[k], d) && h[k].upload.data == s.objects[d];
      assert Puts(sha256, h'[k], d);
    }
  }

  lemma OtherDigest(sha256: Bytes -> string, s: State, op: Op, d: string)
    requires !Puts(sha256, op, d) && !(op.SetHold? && op.digest == d)
    ensures var t := Apply(sha256, s, op);
      && (d in t.objects <==> d in s.objects) && (d in s.objects ==> t.objects[d] == s.objects[d])
      && (d in t.meta <==> d in s.meta) && (d in s.meta ==> t.meta[d] == s.meta[d])
  {
    hide Merged;
  }

  lemma SetHoldAgrees(sha256: Bytes -> string, h: seq<Op>, op: Op)
    requires op.SetHold? && Agrees(sha256, h, Run(sha256, h), op.digest)
    ensures Agrees(sha256, h + [op], Apply(sha256, Run(sha256, h), op), op.digest)
  {
    var s, h', d := Run(sha256, h), h + [op], op.digest;
    assert h'[|h|] == op && forall i :: 0 <= i < |h| ==> h'[i] == h[i];
    HeldAfter(sha256, h, op, d);
    StoredEarlier(sha256, h, op, d, |h|);
    if d in s.meta {
      var i :| 0 <= i < |h| && Puts(sha256, h[i], d) && Until(h[i].upload) == s.meta[d].retention;
      assert Puts(sha256, h'[i], d);
      var k :| 0 <= k < |h| && Puts(sha256, h[k], d) && h[k].upload.data == s.objects[d];
      assert Puts(sha256, h'[k], d);
    }
  }

  /** After any history: a digest is stored exactly when it was put, under content that was put and
      has that digest; its retention is the greatest of all its puts; and it is held exactly when
      something turned its hold on and no explicit release came after. */
  lemma {:induction false} StoreFollowsHistory(sha256: Bytes -> string, h: seq<Op>, d: string)
    ensures Agrees(sha256, h, Run(sha256, h), d)
    decreases |h|
  {
    if h != [] {
      var before, op := h[..|h| - 1], h[|h| - 1];
      assert h == before + [op];
      StoreFollowsHistory(sha256, before, d);
      if op.Put? {
        StoreFollowsHistory(sha256, before, sha256(op.upload.data));
        PutAgrees(sha256, before, op.upload, d);
      } else if op.digest == d {
        SetHoldAgrees(sha256, before, op);
      } else {
        Untouched(sha256, before, op, d);
      }
    }
  }

  /** The k-th operation put the digest, and no later one did. */
  ghost predicate LastPut(sha256: Bytes -> string, h: seq<Op>, d: string, k: nat) {
    k < |h| && Puts(sha256, h[k], d) && forall j :: k < j < |h| ==> !Puts(sha256, h[j], d)
  }

  /** Size, tenant, case, class and creation are those of the latest put; and no retention ends
      before a put's days, of 86400 seconds, are over. */
  lemma {:induction false} MetaIsLatest(sha256: Bytes -> string, h: seq<Op>, d: string) returns (k: nat)
    requires d in Run(sha256, h).meta
    ensures LastPut(sha256, h, d, k)
    ensures var m, u := Run(sha256, h).meta[d], h[k].upload;
      && m.size == |u.data| && m.tenant == u.tenant && m.caseId == u.caseId
      && m.classification == u.classification && m.created == u.now
    ensures forall i :: 0 <= i < |h| && Puts(sha256, h[i], d) ==>
      h[i].upload.now + h[i].upload.days * 86400 <= Run(sha256, h).meta[d].retention
    ensures exists i ::
      0 <= i < |h| && Puts(sha256, h[i], d) &&
      h[i].upload.now + h[i].upload.days * 86400 == Run(sha256, h).meta[d].retention
  {
    hide Apply, Agrees;
    var n := |h| - 1;
    var before, op := h[..n], h[n];
    RetentionIsLatest(sha256, h, d);
    StoreFollowsHistory(sha256, before, d);
    MetaStep(sha256, before, op, d);
    if Puts(sha256, op, d) {
      k := n;
    } else {
      k := MetaIsLatest(sha256, before, d);
    }
  }

  lemma RetentionIsLatest(sha256: Bytes -> string, h: seq<Op>, d: string)
    requires d in Run(sha256, h).meta
    ensures forall i :: 0 <= i < |h| && Puts(sha256, h[i], d) ==>
      h[i].upload.now + h[i].upload.days * 86400 <= Run(sha256, h).meta[d].retention
    ensures exists i ::
      0 <= i < |h| && Puts(sha256, h[i], d) &&
      h[i].upload.now + h[i].upload.days * 86400 == Run(sha256, h).meta[d].retention
  {
    hide Run, Stored, Held;
    StoreFollowsHistory(sha256, h, d);
  }

  lemma MetaStep(sha256: Bytes -> string, h: seq<Op>, op: Op, d: string)
    requires Agrees(sha256, h, Run(sha256, h), d) && d in Apply(sha256, Run(sha256, h), op).meta
    ensures var s, m := Run(sha256, h), Apply(sha256, Run(sha256, h), op).meta[d];
      if Puts(sha256, op, d) then
        var u := op.upload;
        m.size == |u.data| && m.tenant == u.tenant && m.caseId == u.caseId &&
        m.classification == u.classification && m.created == u.now
      else
        d in s.meta &&
        var o := s.meta[d];
        m.size == o.size && m.tenant == o.tenant && m.caseId == o.caseId &&
        m.classification == o.classification && m.created == o.created
  {
    hide Run, Stored, Held;
  }

  /** Reading back an upload gives its bytes, or two uploads collide. */
  lemma GetGivesWhatWasPut(sha256: Bytes -> string, h: seq<Op>, u: Upload)
    requires Put(u) in h
    ensures var d, s := sha256(u.data), Run(sha256, h);
      d in s.objects && sha256(s.objects[d]) == d &&
      (s.objects[d] == u.data ||
        (exists v: Upload :: Put(v) in h && v.data == s.objects[d] && v.data != u.data && sha256(v.data) == d))
  {
    var d, s := sha256(u.data), Run(sha256, h);
    StoreFollowsHistory(sha256, h, d);
    var i :| 0 <= i < |h| && h[i] == Put(u);
    assert Puts(sha256, h[i], d);
    var k :| 0 <= k < |h| && Puts(sha256, h[k], d) && h[k].upload.data == s.objects[d];
    assert h[k] == Put(h[k].upload);
  }
}
