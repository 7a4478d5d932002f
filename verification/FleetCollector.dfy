/** The collector's store: replay and chain checks, node states and alerts. */
module FleetCollector {
  import opened Wrappers
  import opened FleetPolicy
  import opened HashChain

  datatype Heartbeat = Heartbeat(
    nodeId: string, seqNo: int, prev: Option<string>, sha: string, state: NodeState, findings: seq<Finding>)

  datatype NodeRow = NodeRow(lastSeq: int, lastSha: string, state: NodeState, streak: int, findings: seq<Finding>)

  datatype Alert = Alert(nodeId: string, seqNo: int, severity: Severity, code: string)

  datatype Tables = Tables(heartbeats: seq<Heartbeat>, nodes: map<string, NodeRow>, alerts: seq<Alert>)

  datatype Error = Replay | ChainMismatch | DuplicateRow

  /** What one heartbeat brings: the parts of payload and envelope that ingest reads. */
  datatype Arrival = Arrival(nodeId: string, seqNo: int, prev: Option<string>, sha: string, findings: seq<Finding>)

  /** An absent or empty previous hash stands for the first one. */
  function PrevOf(prev: Option<string>): (h: string) {
    if prev == None || prev.value == "" then GENESIS else prev.value
  }

  function Prior(t: Tables, n: string): (r: NodeRow) {
    if n in t.nodes then t.nodes[n] else NodeRow(0, GENESIS, NORMAL, 0, [])
  }

  predicate Alarming(f: Finding) { f.severity == High || f.severity == Critical }

  function AlertsFor(n: string, seqNo: int, fs: seq<Finding>): (r: seq<Alert>) {
    if fs == [] then []
    else
      var f := fs[|fs| - 1];
      AlertsFor(n, seqNo, fs[..|fs| - 1]) + if Alarming(f) then [Alert(n, seqNo, f.severity, f.code)] else []
  }

  /** Store.ingest; the table's uniqueness constraint is the last error. */
  function Ingest(t: Tables, a: Arrival, required: int): (r: Result<Tables, Error>) {
    var prior := Prior(t, a.nodeId);
    if a.seqNo <= prior.lastSeq then Err(Replay)
    else if PrevOf(a.prev) != prior.lastSha then Err(ChainMismatch)
    else if exists h :: h in t.heartbeats && h.nodeId == a.nodeId && h.seqNo == a.seqNo then Err(DuplicateRow)
    else
      var (state, streak) := AggregateState(a.findings, prior.state, prior.streak, required);
      Ok(Tables(
        t.heartbeats + [Heartbeat(a.nodeId, a.seqNo, a.prev, a.sha, state, a.findings)],
        t.nodes[a.nodeId := NodeRow(a.seqNo, a.sha, state, streak, a.findings)],
        t.alerts + AlertsFor(a.nodeId, a.seqNo, a.findings)))
  }

  class Store {
    var heartbeats: seq<Heartbeat>
    var nodes: map<string, NodeRow>
    var alerts: seq<Alert>

    function State(): (t: Tables)
      reads this
    {
      Tables(heartbeats, nodes, alerts)
    }

    constructor ()
      ensures State() == Tables([], map[], [])
    {
      heartbeats, nodes, alerts := [], map[], [];
    }

    method Receive(a: Arrival, required: int) returns (r: Result<(NodeState, int), Error>)
      modifies this
      ensures var t := Ingest(old(State()), a, required);
        if t.Ok? then State() == t.value && r == Ok((nodes[a.nodeId].state, nodes[a.nodeId].streak))
        else State() == old(State()) && r == Err(t.error)
    {
      var prior := Prior(State(), a.nodeId);
      if a.seqNo <= prior.lastSeq { return Err(Replay); }
      if PrevOf(a.prev) != prior.lastSha { return Err(ChainMismatch); }
      if exists h :: h in heartbeats && h.nodeId == a.nodeId && h.seqNo == a.seqNo { return Err(DuplicateRow); }
      var (state, streak) := AggregateState(a.findings, prior.state, prior.streak, required);
      heartbeats := heartbeats + [Heartbeat(a.nodeId, a.seqNo, a.prev, a.sha, state, a.findings)];
      nodes := nodes[a.nodeId := NodeRow(a.seqNo, a.sha, state, streak, a.findings)];
      for i := 0 to |a.findings|
        invariant heartbeats == old(heartbeats) + [Heartbeat(a.nodeId, a.seqNo, a.prev, a.sha, state, a.findings)]
        invariant nodes == old(nodes)[a.nodeId := NodeRow(a.seqNo, a.sha, state, streak, a.findings)]
        invariant alerts == old(alerts) + AlertsFor(a.nodeId, a.seqNo, a.findings[..i])
      {
        var f := a.findings[i];
        assert a.findings[..i + 1][..i] == a.findings[..i];
        if Alarming(f) { alerts := alerts + [Alert(a.nodeId, a.seqNo, f.severity, f.code)]; }
      }
      assert a.findings[..|a.findings|] == a.findings;
      r := Ok((state, streak));
    }
  }

  // ---- The tables agree with each other ----

  /** One node's heartbeats in the order they were accepted. */
  function History(hs: seq<Heartbeat>, n: string): (r: seq<Heartbeat>) {
    if hs == [] then []
    else
      var k := |hs| - 1;
      History(hs[..k], n) + if hs[k].nodeId == n then [hs[k]] else []
  }

  lemma {:induction false} HistoryMembers(hs: seq<Heartbeat>, n: string, h: Heartbeat)
    ensures h in History(hs, n) <==> h in hs && h.nodeId == n
  {
    if hs != [] {
      var k := |hs| - 1;
      HistoryMembers(hs[..k], n, h);
      assert hs == hs[..k] + [hs[k]];
    }
  }

  function FindingsOf(hs: seq<Heartbeat>): (r: seq<seq<Finding>>)
    ensures |r| == |hs|
  {
    if hs == [] then [] else FindingsOf(hs[..|hs| - 1]) + [hs[|hs| - 1].findings]
  }

  function AlertsOf(hs: seq<Heartbeat>): (r: seq<Alert>) {
    if hs == [] then []
    else
      var h := hs[|hs| - 1];
      AlertsOf(hs[..|hs| - 1]) + AlertsFor(h.nodeId, h.seqNo, h.findings)
  }

  /** Sequence numbers rise from one or more, and each heartbeat names the hash of the last. */
  ghost predicate Chained(h: seq<Heartbeat>) {
    h == [] ||
    var n := |h| - 1;
    && Chained(h[..n])
    && h[n].seqNo > (if n == 0 then 0 else h[n - 1].seqNo)
    && PrevOf(h[n].prev) == if n == 0 then GENESIS else h[n - 1].sha
  }

  /** The node_state row that a history amounts to. */
  function RowOf(h: seq<Heartbeat>, required: int): (r: NodeRow)
    requires h != []
  {
    var last, folded := h[|h| - 1], Fold(FindingsOf(h), required);
    NodeRow(last.seqNo, last.sha, folded.0, folded.1, last.findings)
  }

  ghost predicate Consistent(t: Tables, required: string -> int) {
    (forall n :: NodeConsistent(t, required, n)) && t.alerts == AlertsOf(t.heartbeats)
  }

  /** A node's row and heartbeats: there is a row for every node heard of, and it is what the
      node's whole history amounts to. */
  ghost predicate NodeConsistent(t: Tables, required: string -> int, n: string) {
    var h := History(t.heartbeats, n);
    Chained(h) && if n in t.nodes then h != [] && t.nodes[n] == RowOf(h, required(n)) else h == []
  }

  lemma HistoryAppend(hs: seq<Heartbeat>, h: Heartbeat, n: string)
    ensures History(hs + [h], n) == History(hs, n) + if h.nodeId == n then [h] else []
  {
    assert (hs + [h])[..|hs|] == hs;
  }

  lemma {:induction false} ChainedRises(h: seq<Heartbeat>)
    requires Chained(h)
    ensures forall x :: x in h ==> x.seqNo <= h[|h| - 1].seqNo
  {
    if h != [] {
      ChainedRises(h[..|h| - 1]);
      assert h == h[..|h| - 1] + [h[|h| - 1]];
    }
  }

  lemma RowExtends(h: seq<Heartbeat>, x: Heartbeat, required: int)
    ensures FindingsOf(h + [x]) == FindingsOf(h) + [x.findings]
    ensures Fold(FindingsOf(h + [x]), required) ==
      AggregateState(x.findings, Fold(FindingsOf(h), required).0, Fold(FindingsOf(h), required).1, required)
  {
    assert (h + [x])[..|h|] == h;
    assert (FindingsOf(h) + [x.findings])[..|h|] == FindingsOf(h);
  }

  /** Accepting a heartbeat keeps every table equal to what the heartbeats say: the chain of each
      node, its state as the fold of its whole history, and the alerts. */
  lemma IngestKeepsConsistent(t: Tables, a: Arrival, required: string -> int)
    requires Consistent(t, required) && Ingest(t, a, required(a.nodeId)).Ok?
    ensures Consistent(Ingest(t, a, required(a.nodeId)).value, required)
  {
    hide RowOf, Chained, History, AlertsOf, AlertsFor, AggregateState;
    var u := Ingest(t, a, required(a.nodeId)).value;
    var x := u.heartbeats[|t.heartbeats|];
    assert u.heartbeats == t.heartbeats + [x];
    forall n ensures NodeConsistent(u, required, n) {
      assert NodeConsistent(t, required, n);
      HistoryAppend(t.heartbeats, x, n);
      if n == a.nodeId {
        NodeStep(t, a, required(n));
      } else {
        assert History(u.heartbeats, n) == History(t.heartbeats, n);
      }
    }
    AlertsAppend(t.heartbeats, x);
  }

  lemma AlertsAppend(hs: seq<Heartbeat>, x: Heartbeat)
    ensures AlertsOf(hs + [x]) == AlertsOf(hs) + AlertsFor(x.nodeId, x.seqNo, x.findings)
  {
    assert (hs + [x])[..|hs|] == hs;
  }

  /** The receiving node's row and chain. */
  lemma NodeStep(t: Tables, a: Arrival, required: int)
    requires Ingest(t, a, required).Ok? && Chained(History(t.heartbeats, a.nodeId))
    requires a.nodeId in t.nodes <==> History(t.heartbeats, a.nodeId) != []
    requires a.nodeId in t.nodes ==> t.nodes[a.nodeId] == RowOf(History(t.heartbeats, a.nodeId), required)
    ensures var u, h := Ingest(t, a, required).value, History(t.heartbeats, a.nodeId);
      var x := u.heartbeats[|t.heartbeats|];
      u.nodes[a.nodeId] == RowOf(h + [x], required) && Chained(h + [x])
  {
    hide AggregateState, History;
    var h := History(t.heartbeats, a.nodeId);
    var x := Ingest(t, a, required).value.heartbeats[|t.heartbeats|];
    RowExtends(h, x, required);
    assert (h + [x])[..|h|] == h;
  }

  /** The uniqueness constraint never fires: the replay check is enough. */
  lemma NoDuplicateRows(t: Tables, a: Arrival, required: string -> int)
    requires Consistent(t, required)
    ensures Ingest(t, a, required(a.nodeId)) != Err(DuplicateRow)
  {
    hide Chained, AlertsOf, Fold, AggregateState;
    var h := History(t.heartbeats, a.nodeId);
    assert NodeConsistent(t, required, a.nodeId);
    ChainedRises(h);
    forall x | x in t.heartbeats && x.nodeId == a.nodeId ensures x.seqNo <= Prior(t, a.nodeId).lastSeq {
      HistoryMembers(t.heartbeats, a.nodeId, x);
    }
  }

  lemma EmptyConsistent(required: string -> int)
    ensures Consistent(Tables([], map[], []), required)
  {
  }

  // ---- Over runs ----

  function Settle(t: Tables, a: Arrival, required: string -> int): (u: Tables) {
    var r := Ingest(t, a, required(a.nodeId));
    if r.Ok? then r.value else t
  }

  function Run(arrivals: seq<Arrival>, required: string -> int): (t: Tables) {
    if arrivals == [] then Tables([], map[], [])
    else Settle(Run(arrivals[..|arrivals| - 1], required), arrivals[|arrivals| - 1], required)
  }

  lemma {:induction false} RunConsistent(arrivals: seq<Arrival>, required: string -> int)
    ensures Consistent(Run(arrivals, required), required)
  {
    hide Consistent, Ingest;
    if arrivals == [] {
      EmptyConsistent(required);
    } else {
      var before, a := arrivals[..|arrivals| - 1], arrivals[|arrivals| - 1];
      RunConsistent(before, required);
      if Ingest(Run(before, required), a, required(a.nodeId)).Ok? {
        IngestKeepsConsistent(Run(before, required), a, required);
      }
    }
  }

  /** What the last accepted heartbeat of a node leaves for the next one to name; a node not heard of
      is at zero and sixty-four zeros. */
  ghost function LastOf(h: seq<Heartbeat>): (r: (int, string)) {
    if h == [] then (0, GENESIS) else (h[|h| - 1].seqNo, h[|h| - 1].sha)
  }

  /** After any arrivals: a heartbeat is a replay exactly when its number is none above the last one
      accepted of its node; otherwise it breaks the chain exactly when it does not name that one's
      hash; and otherwise it is appended as it came. */
  lemma ArrivalDecided(arrivals: seq<Arrival>, required: string -> int, a: Arrival)
    ensures var t := Run(arrivals, required);
      var (seqNo, sha) := LastOf(History(t.heartbeats, a.nodeId));
      var r := Ingest(t, a, required(a.nodeId));
      var named := if a.prev.Some? && a.prev.value != "" then a.prev.value else GENESIS;
      && (r == Err(Replay) <==> a.seqNo <= seqNo) && (r == Err(ChainMismatch) <==> a.seqNo > seqNo && named != sha)
      && (r.Ok? <==> a.seqNo > seqNo && named == sha)
      && (r.Ok? ==> exists state ::
            r.value.heartbeats ==
            t.heartbeats + [Heartbeat(a.nodeId, a.seqNo, a.prev, a.sha, state, a.findings)])
  {
    hide Run, AlertsFor, AlertsOf, AggregateState, Chained, Fold;
    var t := Run(arrivals, required);
    RunConsistent(arrivals, required);
    NoDuplicateRows(t, a, required);
    assert NodeConsistent(t, required, a.nodeId);
    var r := Ingest(t, a, required(a.nodeId));
    if r.Ok? {
      var x := r.value.heartbeats[|t.heartbeats|];
      assert r.value.heartbeats == t.heartbeats + [Heartbeat(a.nodeId, a.seqNo, a.prev, a.sha, x.state, a.findings)];
    }
  }

  /** After any arrivals, under constant recovery settings, a node's stored state is the closed
      form of its accepted heartbeats. */
  lemma StoredStateIsClosedForm(arrivals: seq<Arrival>, required: string -> int, n: string)
    requires n in Run(arrivals, required).nodes
    ensures var t := Run(arrivals, required);
      (t.nodes[n].state, t.nodes[n].streak) == ClosedForm(FindingsOf(History(t.heartbeats, n)), required(n))
  {
    hide Run, Fold, ClosedForm;
    RunConsistent(arrivals, required);
    assert NodeConsistent(Run(arrivals, required), required, n);
    FoldIsClosedForm(FindingsOf(History(Run(arrivals, required).heartbeats, n)), required(n));
  }

  lemma {:induction false} AlertsForExactly(n: string, seqNo: int, fs: seq<Finding>, x: Alert)
    ensures x in AlertsFor(n, seqNo, fs) <==>
      exists f :: f in fs && Alarming(f) && x == Alert(n, seqNo, f.severity, f.code)
  {
    if fs != [] {
      var front, f := fs[..|fs| - 1], fs[|fs| - 1];
      AlertsForExactly(n, seqNo, front, x);
      assert fs == front + [f];
    }
  }

  /** Alerts are exactly the high and critical findings of the accepted heartbeats. */
  lemma {:induction false} AlertsExactly(hs: seq<Heartbeat>, x: Alert)
    ensures x in AlertsOf(hs) <==>
      exists h, f :: h in hs && f in h.findings && (f.severity == High || f.severity == Critical) &&
        x == Alert(h.nodeId, h.seqNo, f.severity, f.code)
  {
    if hs != [] {
      var front, h := hs[..|hs| - 1], hs[|hs| - 1];
      AlertsExactly(front, x);
      AlertsForExactly(h.nodeId, h.seqNo, h.findings, x);
      assert hs == front + [h];
    }
  }
}
