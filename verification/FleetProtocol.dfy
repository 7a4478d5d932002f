/** One honest agent and the collector, over a network that drops, delays and duplicates. */
module FleetProtocol {
  import opened Wrappers
  import opened HashChain
  import opened FleetPolicy
  import opened FleetCollector

  /** The heartbeat payload: what the protocol reads, and all the rest as `body`. */
  datatype Payload = Payload(nodeId: string, seqNo: int, prev: string, body: string)

  /** What the agent saves between heartbeats. */
  datatype AgentState = AgentState(seqNo: int, lastSha: string)

  /** The payload digest, the collector's policy evaluation, and the recovery settings. */
  datatype Config = Config(
    me: string, digest: Payload -> string, evaluate: Payload -> seq<Finding>, required: string -> int)

  function BuildPayload(c: Config, s: AgentState, body: string): (p: Payload) {
    Payload(c.me, s.seqNo + 1, s.lastSha, body)
  }

  /** load_state on a fresh node. */
  const FRESH := AgentState(0, GENESIS)

  class FleetAgent {
    const c: Config
    var seqNo: int
    var lastSha: string

    function State(): (s: AgentState)
      reads this
    {
      AgentState(seqNo, lastSha)
    }

    constructor (c: Config)
      ensures this.c == c && State() == FRESH
    {
      this.c, seqNo, lastSha := c, 0, GENESIS;
    }

    /** run_once up to the post: the envelope to send. */
    method Prepare(body: string) returns (p: Payload)
      ensures p == BuildPayload(c, State(), body)
    {
      p := Payload(c.me, seqNo + 1, lastSha, body);
    }

    /** run_once after a good response to `p`; on an exception nothing is saved. */
    method Settle(p: Payload)
      modifies this
      ensures State() == Acknowledged(c, p)
    {
      seqNo := p.seqNo;
      lastSha := c.digest(p);
    }
  }

  function Acknowledged(c: Config, p: Payload): (s: AgentState) { AgentState(p.seqNo, c.digest(p)) }

  // ---- The system ----

  /** One HTTP request: retries are new attempts, network duplicates are the same one. */
  datatype Message = Message(attempt: nat, payload: Payload)

  datatype World = World(
    agent: AgentState, waiting: Option<Message>, attempts: nat,
    sent: set<Message>, answered: set<Message>, accepted: seq<Message>, tables: Tables)

  datatype Move =
    | Send(body: string)
    | Deliver(m: Message, admitted: bool)
    | Answer
    | GiveUp
    | Foreign(a: Arrival)

  function Start(): (w: World) { World(FRESH, None, 0, {}, {}, [], Tables([], map[], [])) }

  function ArrivalOf(c: Config, p: Payload): (a: Arrival) {
    Arrival(p.nodeId, p.seqNo, Some(p.prev), c.digest(p), c.evaluate(p))
  }

  predicate Enabled(c: Config, w: World, v: Move) {
    match v
    case Send(_) => w.waiting == None
    case Deliver(m, _) => m in w.sent
    case Answer => w.waiting.Some? && w.waiting.value in w.answered
    case GiveUp => w.waiting.Some?
    case Foreign(a) => a.nodeId != c.me
  }

  /** `admitted` is false where App.accept turns the envelope away before it is stored. */
  function Next(c: Config, w: World, v: Move): (u: World) {
    match v
    case Send(body) =>
      var m := Message(w.attempts, BuildPayload(c, w.agent, body));
      w.(waiting := Some(m), attempts := w.attempts + 1, sent := w.sent + {m})
    case Deliver(m, admitted) =>
      var r := Ingest(w.tables, ArrivalOf(c, m.payload), c.required(m.payload.nodeId));
      if admitted && r.Ok? then
        w.(tables := r.value, answered := w.answered + {m}, accepted := w.accepted + [m])
      else w
    case Answer =>
      if w.waiting.Some? then w.(agent := Acknowledged(c, w.waiting.value.payload), waiting := None) else w
    case GiveUp => w.(waiting := None)
    case Foreign(a) =>
      var r := Ingest(w.tables, a, c.required(a.nodeId));
      if r.Ok? then w.(tables := r.value) else w
  }

  function Run(c: Config, w: World, moves: seq<Move>): (u: World) {
    if moves == [] then w else Next(c, Run(c, w, moves[..|moves| - 1]), moves[|moves| - 1])
  }

  predicate Legal(c: Config, w: World, moves: seq<Move>) {
    moves == [] ||
    (Legal(c, w, moves[..|moves| - 1]) && Enabled(c, Run(c, w, moves[..|moves| - 1]), moves[|moves| - 1]))
  }

  // ---- Safety ----

  function Mine(c: Config, w: World): (h: seq<Heartbeat>) { History(w.tables.heartbeats, c.me) }

  /** The hash a heartbeat numbered n + 1 must name. */
  function ShaAt(h: seq<Heartbeat>, n: nat): (s: string)
    requires n <= |h|
  {
    if n == 0 then GENESIS else h[n - 1].sha
  }

  /** The accepted heartbeats are the agent's, numbered 1..k without gaps, each naming the payload
      hash of the one before. */
  ghost predicate Numbered(c: Config, h: seq<Heartbeat>, accepted: seq<Message>) {
    |h| == |accepted| && forall i :: 0 <= i < |h| ==> NumberedAt(c, h, accepted, i)
  }

  predicate NumberedAt(c: Config, h: seq<Heartbeat>, accepted: seq<Message>, i: nat)
    requires i < |h| == |accepted|
  {
    h[i].seqNo == i + 1 == accepted[i].payload.seqNo && h[i].sha == c.digest(accepted[i].payload) &&
    h[i].prev == Some(accepted[i].payload.prev) && PrevOf(h[i].prev) == ShaAt(h, i)
  }

  ghost predicate SentOk(c: Config, h: seq<Heartbeat>, agentSeq: int, p: Payload) {
    p.nodeId == c.me && 1 <= p.seqNo <= agentSeq + 1 && p.seqNo - 1 <= |h| && p.prev == ShaAt(h, p.seqNo - 1)
  }

  /** The agent's side and the messages, against the node's accepted heartbeats `h`. */
  ghost predicate Agrees(c: Config, h: seq<Heartbeat>, w: World) {
    && Numbered(c, h, w.accepted)
    && 0 <= w.agent.seqNo <= |h| <= w.agent.seqNo + 1
    && w.agent.lastSha == ShaAt(h, w.agent.seqNo)
    && (forall m :: m in w.sent ==> SentOk(c, h, w.agent.seqNo, m.payload) && m.attempt < w.attempts)
    && (forall m :: m in w.answered <==> m in w.accepted)
    && (forall m :: m in w.accepted ==> m in w.sent)
    && (w.waiting.Some? ==> w.waiting.value in w.sent && w.waiting.value.payload.seqNo == w.agent.seqNo + 1)
  }

  ghost predicate Safe(c: Config, w: World) {
    Consistent(w.tables, c.required) && Agrees(c, Mine(c, w), w)
  }

  lemma StartSafe(c: Config)
    ensures Safe(c, Start())
  {
    EmptyConsistent(c.required);
  }

  lemma PriorIsLast(c: Config, w: World)
    requires Safe(c, w)
    ensures Prior(w.tables, c.me).lastSeq == |Mine(c, w)| &&
      Prior(w.tables, c.me).lastSha == ShaAt(Mine(c, w), |Mine(c, w)|)
  {
    hide Consistent, History, Agrees, Numbered, Prior;
    var h := Mine(c, w);
    PriorOfConsistent(w.tables, c.required, c.me);
    LastNumber(c, h, w);
  }

  lemma LastNumber(c: Config, h: seq<Heartbeat>, w: World)
    requires Agrees(c, h, w)
    ensures h != [] ==> h[|h| - 1].seqNo == |h|
  {
    hide SentOk;
    if h != [] {
      var k := |h| - 1;
      assert NumberedAt(c, h, w.accepted, k);
    }
  }

  lemma PriorOfConsistent(t: Tables, required: string -> int, n: string)
    requires Consistent(t, required)
    ensures var h := History(t.heartbeats, n);
      if h == [] then Prior(t, n) == NodeRow(0, GENESIS, NORMAL, 0, [])
      else Prior(t, n).lastSeq == h[|h| - 1].seqNo && Prior(t, n).lastSha == h[|h| - 1].sha
  {
    hide Chained, Fold, AlertsOf, History, FindingsOf;
    assert NodeConsistent(t, required, n);
  }

  /** The collector takes exactly the next number; nothing older, nothing later. */
  lemma AcceptedIsNext(c: Config, w: World, m: Message)
    requires Safe(c, w) && m in w.sent
    ensures Ingest(w.tables, ArrivalOf(c, m.payload), c.required(m.payload.nodeId)).Ok? ==>
      m.payload.seqNo == |Mine(c, w)| + 1 == w.agent.seqNo + 1 && m.payload.nodeId == c.me &&
      PrevOf(Some(m.payload.prev)) == ShaAt(Mine(c, w), |Mine(c, w)|)
  {
    hide Consistent, Numbered, AggregateState, AlertsFor;
    PriorIsLast(c, w);
  }

  lemma ShaAtAppend(h: seq<Heartbeat>, x: Heartbeat)
    ensures forall k: nat :: k <= |h| ==> ShaAt(h + [x], k) == ShaAt(h, k)
    ensures ShaAt(h + [x], |h| + 1) == x.sha
  {
  }

  lemma NumberedAppend(c: Config, h: seq<Heartbeat>, accepted: seq<Message>, x: Heartbeat, m: Message)
    requires Numbered(c, h, accepted) && x.seqNo == |h| + 1 == m.payload.seqNo && x.sha == c.digest(m.payload)
    requires x.prev == Some(m.payload.prev) && PrevOf(x.prev) == ShaAt(h, |h|)
    ensures Numbered(c, h + [x], accepted + [m])
  {
    ShaAtAppend(h, x);
    var h', accepted' := h + [x], accepted + [m];
    forall i | 0 <= i < |h'| ensures NumberedAt(c, h', accepted', i) {
      if i < |h| { assert NumberedAt(c, h, accepted, i) && h'[i] == h[i] && accepted'[i] == accepted[i]; }
    }
  }

  lemma DeliverAgrees(c: Config, h: seq<Heartbeat>, w: World, x: Heartbeat, m: Message, u: World)
    requires Agrees(c, h, w) && m in w.sent && w.agent.seqNo == |h|
    requires x.seqNo == |h| + 1 == m.payload.seqNo && x.sha == c.digest(m.payload)
    requires x.prev == Some(m.payload.prev) && PrevOf(x.prev) == ShaAt(h, |h|)
    requires u == w.(tables := u.tables, answered := w.answered + {m}, accepted := w.accepted + [m])
    ensures Agrees(c, h + [x], u)
  {
    hide Numbered;
    NumberedAppend(c, h, w.accepted, x, m);
    ShaAtAppend(h, x);
  }

  lemma DeliverSafe(c: Config, w: World, m: Message)
    requires Safe(c, w) && m in w.sent
    ensures Safe(c, Next(c, w, Deliver(m, true)))
  {
    hide Consistent, Prior, AggregateState, AlertsFor, History, Agrees;
    var a, r := ArrivalOf(c, m.payload), Ingest(w.tables, ArrivalOf(c, m.payload), c.required(m.payload.nodeId));
    if r.Ok? {
      var u := Next(c, w, Deliver(m, true));
      AcceptedIsNext(c, w, m);
      IngestKeepsConsistent(w.tables, a, c.required);
      var x := r.value.heartbeats[|w.tables.heartbeats|];
      HistoryAppend(w.tables.heartbeats, x, c.me);
      DeliverAgrees(c, Mine(c, w), w, x, m, u);
    }
  }

  lemma ForeignKeepsMine(c: Config, w: World, a: Arrival)
    requires a.nodeId != c.me
    ensures Mine(c, Next(c, w, Foreign(a))) == Mine(c, w)
  {
    hide Prior, AggregateState, AlertsFor, History;
    var r := Ingest(w.tables, a, c.required(a.nodeId));
    if r.Ok? { HistoryAppend(w.tables.heartbeats, r.value.heartbeats[|w.tables.heartbeats|], c.me); }
  }

  lemma ForeignSafe(c: Config, w: World, a: Arrival)
    requires Safe(c, w) && a.nodeId != c.me
    ensures Safe(c, Next(c, w, Foreign(a)))
  {
    hide Consistent, Numbered, Ingest, Mine, SentOk;
    ForeignKeepsMine(c, w, a);
    if Ingest(w.tables, a, c.required(a.nodeId)).Ok? { IngestKeepsConsistent(w.tables, a, c.required); }
  }

  lemma AnswerAgrees(c: Config, h: seq<Heartbeat>, w: World)
    requires Agrees(c, h, w) && Enabled(c, w, Answer)
    ensures Agrees(c, h, Next(c, w, Answer))
  {
    hide Ingest, Numbered;
    AnsweredIsAccepted(c, h, w);
  }

  /** The collector's last accepted heartbeat is the one whose answer the agent has. */
  lemma AnsweredIsAccepted(c: Config, h: seq<Heartbeat>, w: World)
    requires Agrees(c, h, w) && Enabled(c, w, Answer)
    ensures var p := w.waiting.value.payload;
      p.seqNo == w.agent.seqNo + 1 == |h| && c.digest(p) == ShaAt(h, |h|)
  {
    hide SentOk;
    var m := w.waiting.value;
    assert m in w.accepted;
    var i :| 0 <= i < |w.accepted| && w.accepted[i] == m;
    assert NumberedAt(c, h, w.accepted, i);
  }

  lemma SendAgrees(c: Config, h: seq<Heartbeat>, w: World, body: string)
    requires Agrees(c, h, w)
    ensures Agrees(c, h, Next(c, w, Send(body)))
  {
    hide Numbered;
  }

  lemma GiveUpAgrees(c: Config, h: seq<Heartbeat>, w: World)
    requires Agrees(c, h, w)
    ensures Agrees(c, h, Next(c, w, GiveUp))
  {
    hide Numbered, SentOk;
  }

  lemma OwnMovesKeepTables(c: Config, w: World, v: Move)
    requires v.Send? || v.Answer? || v.GiveUp? || (v.Deliver? && !v.admitted)
    ensures Next(c, w, v).tables == w.tables && Mine(c, Next(c, w, v)) == Mine(c, w)
  {
    hide History, Ingest;
  }

  lemma NextSafe(c: Config, w: World, v: Move)
    requires Safe(c, w) && Enabled(c, w, v)
    ensures Safe(c, Next(c, w, v))
  {
    hide Consistent, Agrees, Ingest, Mine, Next;
    match v {
      case Send(body) =>
        OwnMovesKeepTables(c, w, v);
        SendAgrees(c, Mine(c, w), w, body);
      case Deliver(m, admitted) => if admitted { DeliverSafe(c, w, m); } else { NotAdmitted(c, w, m); }
      case Answer =>
        OwnMovesKeepTables(c, w, v);
        AnswerAgrees(c, Mine(c, w), w);
      case GiveUp =>
        OwnMovesKeepTables(c, w, v);
        GiveUpAgrees(c, Mine(c, w), w);
      case Foreign(a) => ForeignSafe(c, w, a);
    }
  }

  lemma NotAdmitted(c: Config, w: World, m: Message)
    ensures Next(c, w, Deliver(m, false)) == w
  {
    hide Ingest;
  }

  lemma {:induction false} RunSafe(c: Config, w: World, moves: seq<Move>)
    requires Safe(c, w) && Legal(c, w, moves)
    ensures Safe(c, Run(c, w, moves))
  {
    hide Safe, Next, Enabled;
    if moves != [] {
      RunSafe(c, w, moves[..|moves| - 1]);
      NextSafe(c, Run(c, w, moves[..|moves| - 1]), moves[|moves| - 1]);
    }
  }

  /** Whatever the network does, and whatever other nodes send, the collector holds exactly the
      agent's heartbeats 1..k, each linked to the one before; k is the agent's saved number or one
      more; and when they are equal the saved hashes agree. */
  lemma HeartbeatsExact(c: Config, moves: seq<Move>)
    requires Legal(c, Start(), moves)
    ensures var w := Run(c, Start(), moves);
      var h := Mine(c, w);
      && Numbered(c, h, w.accepted) && (forall m :: m in w.accepted ==> m in w.sent)
      && (|h| == w.agent.seqNo || |h| == w.agent.seqNo + 1)
      && (|h| == w.agent.seqNo ==> w.agent.lastSha == Prior(w.tables, c.me).lastSha)
  {
    StartSafe(c);
    RunSafe(c, Start(), moves);
    PriorIsLast(c, Run(c, Start(), moves));
  }

  // ---- A lost response ----

  /** The collector is one ahead, and no answer to the agent's current request can still come. */
  ghost predicate Stranded(c: Config, w: World) {
    && |Mine(c, w)| == w.agent.seqNo + 1
    && (w.waiting.Some? ==> w.waiting.value !in w.answered)
  }

  lemma StrandedStays(c: Config, w: World, v: Move)
    requires Safe(c, w) && Stranded(c, w) && Enabled(c, w, v)
    ensures Stranded(c, Next(c, w, v))
    ensures Next(c, w, v).agent == w.agent && Mine(c, Next(c, w, v)) == Mine(c, w) &&
      Next(c, w, v).accepted == w.accepted
  {
    hide Consistent, Numbered, Ingest, Mine, SentOk;
    if !v.Deliver? && !v.Foreign? { OwnMovesKeepTables(c, w, v); }
    match v {
      case Send(body) =>
        var m := Message(w.attempts, BuildPayload(c, w.agent, body));
        assert m !in w.sent;
      case Deliver(m, admitted) => AcceptedIsNext(c, w, m);
      case Foreign(a) => ForeignKeepsMine(c, w, a);
      case _ =>
    }
  }

  /** Once a response is lost for good, every later heartbeat of the agent is rejected: neither its
      saved state nor its accepted heartbeats ever change again. */
  lemma {:induction false} LostResponseStrands(c: Config, w: World, moves: seq<Move>)
    requires Safe(c, w) && Stranded(c, w) && Legal(c, w, moves)
    ensures Stranded(c, Run(c, w, moves))
    ensures Run(c, w, moves).agent == w.agent && Mine(c, Run(c, w, moves)) == Mine(c, w) &&
      Run(c, w, moves).accepted == w.accepted
  {
    hide Safe, Next, Enabled, Stranded, Mine;
    if moves != [] {
      var before := moves[..|moves| - 1];
      RunSafe(c, w, before);
      LostResponseStrands(c, w, before);
      StrandedStays(c, Run(c, w, before), moves[|moves| - 1]);
    }
  }

  /** Some continuation moves the agent's saved number on. */
  ghost predicate CanAdvance(c: Config, w: World) {
    exists moves :: Legal(c, w, moves) && Run(c, w, moves).agent.seqNo > w.agent.seqNo
  }

  lemma AdvancesBy(c: Config, w: World, moves: seq<Move>)
    requires Legal(c, w, moves) && Run(c, w, moves).agent.seqNo > w.agent.seqNo
    ensures CanAdvance(c, w)
  {
  }

  /** A request that names the next number, from an agent the collector agrees with, is taken. */
  lemma NextIsTaken(c: Config, w: World, m: Message)
    requires Safe(c, w) && (forall p :: c.digest(p) != "") && m in w.sent
    requires |Mine(c, w)| == w.agent.seqNo && m.payload.seqNo == w.agent.seqNo + 1
    ensures Ingest(w.tables, ArrivalOf(c, m.payload), c.required(m.payload.nodeId)).Ok?
  {
    hide Consistent, Agrees, Numbered, AggregateState, AlertsFor, Mine, Prior;
    PriorIsLast(c, w);
    SentIsLinked(c, Mine(c, w), w, m);
    NoDuplicateRows(w.tables, ArrivalOf(c, m.payload), c.required);
  }

  lemma SentIsLinked(c: Config, h: seq<Heartbeat>, w: World, m: Message)
    requires Agrees(c, h, w) && (forall p :: c.digest(p) != "") && m in w.sent
    requires |h| == w.agent.seqNo && m.payload.seqNo == |h| + 1
    ensures m.payload.nodeId == c.me && PrevOf(Some(m.payload.prev)) == ShaAt(h, |h|)
  {
    assert SentOk(c, h, w.agent.seqNo, m.payload);
    if h != [] { assert NumberedAt(c, h, w.accepted, |h| - 1); }
  }

  lemma RunOne(c: Config, w: World, a: Move)
    ensures Run(c, w, [a]) == Next(c, w, a)
    ensures Legal(c, w, [a]) <==> Enabled(c, w, a)
  {
    hide Next, Enabled;
    assert [a][..0] == [];
  }

  lemma RunTwo(c: Config, w: World, a: Move, b: Move)
    ensures Run(c, w, [a, b]) == Next(c, Next(c, w, a), b)
    ensures Legal(c, w, [a, b]) <==> Enabled(c, w, a) && Enabled(c, Next(c, w, a), b)
  {
    hide Next, Enabled;
    RunOne(c, w, a);
    assert [a, b][..1] == [a];
  }

  lemma RunThree(c: Config, w: World, a: Move, b: Move, d: Move)
    ensures Run(c, w, [a, b, d]) == Next(c, Next(c, Next(c, w, a), b), d)
    ensures Legal(c, w, [a, b, d]) <==>
      Enabled(c, w, a) && Enabled(c, Next(c, w, a), b) && Enabled(c, Next(c, Next(c, w, a), b), d)
  {
    hide Next, Enabled;
    RunTwo(c, w, a, b);
    assert [a, b, d][..2] == [a, b];
  }

  lemma AnswerAdvances(c: Config, w: World)
    requires Safe(c, w) && w.waiting.Some? && w.waiting.value in w.answered
    ensures CanAdvance(c, w)
  {
    hide Consistent, Numbered, Ingest, Mine;
    RunOne(c, w, Answer);
    AdvancesBy(c, w, [Answer]);
  }

  lemma DeliveryAdvances(c: Config, w: World)
    requires Safe(c, w) && (forall p :: c.digest(p) != "")
    requires |Mine(c, w)| == w.agent.seqNo && w.waiting.Some?
    ensures CanAdvance(c, w)
  {
    hide Consistent, Numbered, Ingest, Mine;
    var m := w.waiting.value;
    NextIsTaken(c, w, m);
    NextSafe(c, w, Deliver(m, true));
    RunTwo(c, w, Deliver(m, true), Answer);
    AdvancesBy(c, w, [Deliver(m, true), Answer]);
  }

  lemma SendingAdvances(c: Config, w: World)
    requires Safe(c, w) && (forall p :: c.digest(p) != "")
    requires |Mine(c, w)| == w.agent.seqNo && w.waiting == None
    ensures CanAdvance(c, w)
  {
    hide Consistent, Agrees, Numbered, Ingest, Mine;
    var m := Message(w.attempts, BuildPayload(c, w.agent, ""));
    var u := Next(c, w, Send(""));
    NextSafe(c, w, Send(""));
    OwnMovesKeepTables(c, w, Send(""));
    NextIsTaken(c, u, m);
    RunThree(c, w, Send(""), Deliver(m, true), Answer);
    AdvancesBy(c, w, [Send(""), Deliver(m, true), Answer]);
  }

  /** Being stranded is the only obstacle: exactly the stranded agents can never again get a
      heartbeat acknowledged, whatever the network does from now on. */
  lemma StrandedIff(c: Config, w: World)
    requires Safe(c, w) && forall p :: c.digest(p) != ""
    ensures Stranded(c, w) <==> !CanAdvance(c, w)
  {
    hide Consistent, Numbered, Ingest, Mine, SentOk;
    if Stranded(c, w) {
      forall moves | Legal(c, w, moves) ensures Run(c, w, moves).agent == w.agent {
        LostResponseStrands(c, w, moves);
      }
    } else if w.waiting.Some? && w.waiting.value in w.answered {
      AnswerAdvances(c, w);
    } else if w.waiting.Some? {
      DeliveryAdvances(c, w);
    } else {
      SendingAdvances(c, w);
    }
  }

  /** So giving up on a request ends the agent's progress exactly when the collector had taken it. */
  lemma GivingUpStrands(c: Config, w: World)
    requires Safe(c, w) && (forall p :: c.digest(p) != "") && w.waiting.Some?
    ensures Stranded(c, Next(c, w, GiveUp)) <==> |Mine(c, w)| == w.agent.seqNo + 1
    ensures CanAdvance(c, Next(c, w, GiveUp)) <==> |Mine(c, w)| == w.agent.seqNo
  {
    hide Consistent, Numbered, Ingest, Mine, SentOk, CanAdvance;
    NextSafe(c, w, GiveUp);
    OwnMovesKeepTables(c, w, GiveUp);
    StrandedIff(c, Next(c, w, GiveUp));
  }

  /** It can happen to any agent, on its first heartbeat. */
  lemma StrandingIsReachable(c: Config, body: string)
    ensures var moves := [Send(body), Deliver(Message(0, BuildPayload(c, FRESH, body)), true), GiveUp];
      Legal(c, Start(), moves) && Stranded(c, Run(c, Start(), moves))
  {
    hide AggregateState, AlertsFor;
    var m := Message(0, BuildPayload(c, FRESH, body));
    var w0 := Start();
    var w1 := Next(c, w0, Send(body));
    var w2 := Next(c, w1, Deliver(m, true));
    var w3 := Next(c, w2, GiveUp);
    RunThree(c, w0, Send(body), Deliver(m, true), GiveUp);
    assert Mine(c, w0) == [];
  }
}
