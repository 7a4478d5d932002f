/** The acquisition-task leases of the metadata store; each call is one transaction. */
module TaskLeases {
  import opened Wrappers

  datatype TaskState = QUEUED | LEASED | COMPLETE | PARTIAL | FAILED

  predicate Terminal(s: TaskState) { s == COMPLETE || s == PARTIAL || s == FAILED }

  datatype Task = Task(
    caseId: string, collectorType: string, state: TaskState, owner: Option<string>, until: Option<int>,
    attempt: nat, request: string, receipt: Option<string>, created: int)

  datatype Collector = Collector(capabilities: set<string>, enabled: bool)

  /** Tenant and identifier. */
  type Key = (string, string)

  datatype Store = Store(cases: set<Key>, collectors: map<Key, Collector>, tasks: map<Key, Task>)

  datatype Error = NoSuchCase | DuplicateCase | DuplicateTask | CollectorNotEnrolled | BadState | NotLeaseOwner

  // ---- The calls, as functions of the tables ----

  function PutTask(
      s: Store, tenant: string, caseId: string, kind: string, request: string, taskId: string, now: int)
    : (r: Result<Store, Error>)
  {
    if (tenant, caseId) !in s.cases then Err(NoSuchCase)
    else if (tenant, taskId) in s.tasks then Err(DuplicateTask)
    else Ok(s.(tasks := s.tasks[(tenant, taskId) := Task(caseId, kind, QUEUED, None, None, 0, request, None, now)]))
  }

  /** What a collector may work on in this call. */
  function Allowed(c: Collector, requested: set<string>): (r: set<string>) {
    if requested != {} then c.capabilities * requested else c.capabilities
  }

  predicate Claimable(t: Task, now: int) {
    t.state == QUEUED || (t.state == LEASED && t.until.Some? && t.until.value < now)
  }

  predicate Candidate(s: Store, tenant: string, allowed: set<string>, now: int, k: Key) {
    k in s.tasks && k.0 == tenant && Claimable(s.tasks[k], now) && s.tasks[k].collectorType in allowed
  }

  /** A row the ordered query may deliver first; rows created at the same time come in any order. */
  ghost predicate Picks(s: Store, tenant: string, allowed: set<string>, now: int, pick: Option<string>) {
    match pick
    case None => forall k :: !Candidate(s, tenant, allowed, now, k)
    case Some(id) =>
      Candidate(s, tenant, allowed, now, (tenant, id)) &&
      forall k :: Candidate(s, tenant, allowed, now, k) ==> s.tasks[(tenant, id)].created <= s.tasks[k].created
  }

  function Leased(t: Task, collector: string, until: int): (r: Task) {
    t.(state := LEASED, owner := Some(collector), until := Some(until), attempt := t.attempt + 1)
  }

  predicate Enrolled(s: Store, tenant: string, collector: string) {
    (tenant, collector) in s.collectors && s.collectors[(tenant, collector)].enabled
  }

  /** claim_task having picked `pick`; the caller's capabilities leave nothing to do when none is
      registered. */
  function ClaimTask(
      s: Store, tenant: string, collector: string, lease: int, now: int, pick: Option<string>)
    : (r: Result<Store, Error>)
  {
    if !Enrolled(s, tenant, collector) then Err(CollectorNotEnrolled)
    else if pick == None || (tenant, pick.value) !in s.tasks then Ok(s)
    else
      var k := (tenant, pick.value);
      Ok(s.(tasks := s.tasks[k := Leased(s.tasks[k], collector, now + lease)]))
  }

  /** complete_task. The owner column is compared with the caller's id even when that is None. */
  function CompleteTask(
      s: Store, tenant: string, taskId: string, collector: Option<string>, receipt: string, state: TaskState)
    : (r: Result<Store, Error>)
  {
    var k := (tenant, taskId);
    if !Terminal(state) then Err(BadState)
    else if k !in s.tasks || s.tasks[k].owner != collector then Err(NotLeaseOwner)
    else
      var t := s.tasks[k].(state := state, receipt := Some(receipt), owner := None, until := None);
      Ok(s.(tasks := s.tasks[k := t]))
  }

  // ---- The store as a class ----

  class MetadataStore {
    var cases: set<Key>
    var collectors: map<Key, Collector>
    var tasks: map<Key, Task>

    function State(): (s: Store)
      reads this
    {
      Store(cases, collectors, tasks)
    }

    constructor ()
      ensures State() == Store({}, map[], map[])
    {
      cases, collectors, tasks := {}, map[], map[];
    }

    method CreateCase(tenant: string, caseId: string) returns (r: Result<(), Error>)
      modifies this
      ensures State() == old(State()).(cases := old(cases) + {(tenant, caseId)})
      ensures r == if (tenant, caseId) in old(cases) then Err(DuplicateCase) else Ok(())
    {
      if (tenant, caseId) in cases {
        assert cases == cases + {(tenant, caseId)};
        return Err(DuplicateCase);
      }
      cases := cases + {(tenant, caseId)};
      r := Ok(());
    }

    method RegisterCollector(tenant: string, collector: string, capabilities: set<string>)
      modifies this
      ensures State() ==
        old(State()).(collectors := old(collectors)[(tenant, collector) := Collector(capabilities, true)])
    {
      collectors := collectors[(tenant, collector) := Collector(capabilities, true)];
    }

    method Put(tenant: string, caseId: string, kind: string, request: string, taskId: string, now: int)
      returns (r: Result<string, Error>)
      modifies this
      ensures var t := PutTask(old(State()), tenant, caseId, kind, request, taskId, now);
        if t.Ok? then State() == t.value && r == Ok(taskId) else State() == old(State()) && r == Err(t.error)
    {
      if (tenant, caseId) !in cases { return Err(NoSuchCase); }
      if (tenant, taskId) in tasks { return Err(DuplicateTask); }
      tasks := tasks[(tenant, taskId) := Task(caseId, kind, QUEUED, None, None, 0, request, None, now)];
      r := Ok(taskId);
    }

    /** Runs down the claimable rows and keeps the earliest created. */
    method FindTask(tenant: string, allowed: set<string>, now: int) returns (pick: Option<string>)
      ensures Picks(State(), tenant, allowed, now, pick)
    {
      pick := None;
      var rest := tasks.Keys;
      while rest != {}
        invariant rest <= tasks.Keys
        invariant pick == None ==> forall k :: k in tasks && k !in rest ==> !Candidate(State(), tenant, allowed, now, k)
        invariant pick.Some? ==> Candidate(State(), tenant, allowed, now, (tenant, pick.value))
        invariant pick.Some? ==> forall k :: k !in rest && Candidate(State(), tenant, allowed, now, k) ==>
          tasks[(tenant, pick.value)].created <= tasks[k].created
        decreases rest
      {
        var k :| k in rest;
        rest := rest - {k};
        if Candidate(State(), tenant, allowed, now, k) &&
           (pick == None || tasks[k].created < tasks[(tenant, pick.value)].created)
        {
          pick := Some(k.1);
          assert k == (tenant, k.1);
        }
      }
    }

    method Claim(tenant: string, collector: string, requested: set<string>, lease: int, now: int)
      returns (r: Result<Option<string>, Error>)
      modifies this
      ensures !Enrolled(old(State()), tenant, collector) ==> r == Err(CollectorNotEnrolled) && State() == old(State())
      ensures Enrolled(old(State()), tenant, collector) ==> r.Ok?
      ensures r.Ok? ==>
        Picks(old(State()), tenant, Allowed(old(collectors)[(tenant, collector)], requested), now, r.value)
      ensures r.Ok? ==> Ok(State()) == ClaimTask(old(State()), tenant, collector, lease, now, r.value)
    {
      if (tenant, collector) !in collectors || !collectors[(tenant, collector)].enabled {
        return Err(CollectorNotEnrolled);
      }
      var allowed := Allowed(collectors[(tenant, collector)], requested);
      if allowed == {} { return Ok(None); }
      var pick := FindTask(tenant, allowed, now);
      if pick.Some? {
        var k := (tenant, pick.value);
        tasks := tasks[k := Leased(tasks[k], collector, now + lease)];
      }
      r := Ok(pick);
    }

    method Complete(tenant: string, taskId: string, collector: Option<string>, receipt: string, state: TaskState)
      returns (r: Result<(), Error>)
      modifies this
      ensures var t := CompleteTask(old(State()), tenant, taskId, collector, receipt, state);
        if t.Ok? then State() == t.value && r == Ok(()) else State() == old(State()) && r == Err(t.error)
    {
      if !Terminal(state) { return Err(BadState); }
      var k := (tenant, taskId);
      if k !in tasks || tasks[k].owner != collector { return Err(NotLeaseOwner); }
      tasks := tasks[k := tasks[k].(state := state, receipt := Some(receipt), owner := None, until := None)];
      r := Ok(());
    }
  }

  // ---- Runs ----

  datatype Call =
    | NewCase(tenant: string, caseId: string)
    | Register(tenant: string, collector: string, capabilities: set<string>)
    | Put(tenant: string, caseId: string, kind: string, request: string, taskId: string, now: int)
    | Claim(tenant: string, claimer: string, requested: set<string>, lease: int, now: int, pick: Option<string>)
    | Complete(tenant: string, taskId: string, who: Option<string>, receipt: string, state: TaskState)

  function Outcome(s: Store, c: Call): (r: Result<Store, Error>) {
    match c
    case NewCase(t, id) => if (t, id) in s.cases then Err(DuplicateCase) else Ok(s.(cases := s.cases + {(t, id)}))
    case Register(t, id, caps) => Ok(s.(collectors := s.collectors[(t, id) := Collector(caps, true)]))
    case Put(t, caseId, kind, request, id, now) => PutTask(s, t, caseId, kind, request, id, now)
    case Claim(t, id, requested, lease, now, pick) => ClaimTask(s, t, id, lease, now, pick)
    case Complete(t, id, who, receipt, state) => CompleteTask(s, t, id, who, receipt, state)
  }

  function After(s: Store, c: Call): (t: Store) {
    match Outcome(s, c)
    case Ok(t) => t
    case Err(_) => s
  }

  function Run(calls: seq<Call>): (s: Store) {
    if calls == [] then Store({}, map[], map[]) else After(Run(calls[..|calls| - 1]), calls[|calls| - 1])
  }

  /** A claim by an enrolled collector picks what its query may deliver. */
  ghost predicate Possible(s: Store, c: Call) {
    c.Claim? && Enrolled(s, c.tenant, c.claimer) ==>
      Picks(s, c.tenant, Allowed(s.collectors[(c.tenant, c.claimer)], c.requested), c.now, c.pick)
  }

  ghost predicate PossibleRun(calls: seq<Call>) {
    calls == [] || (PossibleRun(calls[..|calls| - 1]) && Possible(Run(calls[..|calls| - 1]), calls[|calls| - 1]))
  }

  /** What a collector may be given: a task of its tenant, of a kind it is registered for and, if it
      asked for kinds, asked for, that waits or whose lease has run out. */
  ghost predicate Offered(s: Store, c: Call, k: Key)
    requires c.Claim? && Enrolled(s, c.tenant, c.claimer)
  {
    && k in s.tasks && k.0 == c.tenant
    && s.tasks[k].collectorType in s.collectors[(c.tenant, c.claimer)].capabilities
    && (c.requested == {} || s.tasks[k].collectorType in c.requested)
    && (s.tasks[k].state == QUEUED ||
        (s.tasks[k].state == LEASED && s.tasks[k].until.Some? && s.tasks[k].until.value < c.now))
  }

  /** A claim is given an oldest task it may be given, and nothing only when there is none; what it
      is given is its own until its lease runs out, and nothing else of the store changes. */
  lemma ClaimMeans(s: Store, c: Call)
    requires c.Claim? && Enrolled(s, c.tenant, c.claimer) && Possible(s, c)
    ensures c.pick == None <==> forall k :: !Offered(s, c, k)
    ensures c.pick.Some? ==>
      var k, t := (c.tenant, c.pick.value), After(s, c);
      && Offered(s, c, k) && (forall l :: Offered(s, c, l) ==> s.tasks[k].created <= s.tasks[l].created)
      && t.cases == s.cases && t.collectors == s.collectors && t.tasks.Keys == s.tasks.Keys
      && (forall l :: l in s.tasks && l != k ==> t.tasks[l] == s.tasks[l])
      && t.tasks[k].state == LEASED && t.tasks[k].owner == Some(c.claimer) && t.tasks[k].until == Some(c.now + c.lease)
      && t.tasks[k].attempt == s.tasks[k].attempt + 1 && t.tasks[k].caseId == s.tasks[k].caseId
      && t.tasks[k].request == s.tasks[k].request && t.tasks[k].receipt == s.tasks[k].receipt
    ensures c.pick == None ==> After(s, c) == s
  {
    var allowed := Allowed(s.collectors[(c.tenant, c.claimer)], c.requested);
    forall k ensures Candidate(s, c.tenant, allowed, c.now, k) <==> Offered(s, c, k) {
    }
  }

  /** A completion goes through exactly on a task whose owner column holds what the caller gave as
      collector; it ends the task with the receipt, and nothing else of the store changes. */
  lemma CompletionMeans(s: Store, c: Call)
    requires c.Complete?
    ensures var k, o := (c.tenant, c.taskId), Outcome(s, c);
      && (o == Err(BadState) <==> c.state == QUEUED || c.state == LEASED)
      && (o == Err(NotLeaseOwner) <==> c.state !in {QUEUED, LEASED} && (k in s.tasks ==> s.tasks[k].owner != c.who))
      && (o.Err? <==> o == Err(BadState) || o == Err(NotLeaseOwner))
    ensures Outcome(s, c).Ok? ==>
      var k, t := (c.tenant, c.taskId), After(s, c);
      && k in s.tasks && t.cases == s.cases && t.collectors == s.collectors && t.tasks.Keys == s.tasks.Keys
      && (forall l :: l in s.tasks && l != k ==> t.tasks[l] == s.tasks[l])
      && t.tasks[k].state == c.state && t.tasks[k].receipt == Some(c.receipt)
      && t.tasks[k].owner == None && t.tasks[k].until == None && t.tasks[k].attempt == s.tasks[k].attempt
  {
  }

  ghost predicate Puts(calls: seq<Call>, i: nat, k: Key) {
    i < |calls| && calls[i].Put? && (calls[i].tenant, calls[i].taskId) == k
  }

  /** After any calls a task is in its case, of the kind, with the request and of the age that the
      call which put it said, and that case was there. */
  lemma {:induction false} TaskIsAsPut(calls: seq<Call>, k: Key) returns (i: nat)
    requires k in Run(calls).tasks
    ensures Puts(calls, i, k) && (k.0, calls[i].caseId) in Run(calls[..i]).cases && k !in Run(calls[..i]).tasks
    ensures var row := Run(calls).tasks[k];
      row.caseId == calls[i].caseId && row.collectorType == calls[i].kind && row.request == calls[i].request &&
      row.created == calls[i].now
  {
    var n := |calls| - 1;
    var before, c := calls[..n], calls[n];
    if k in Run(before).tasks {
      i := TaskIsAsPut(before, k);
      assert before[..i] == calls[..i];
    } else {
      i := n;
    }
  }

  ghost predicate CompletesNow(s: Store, c: Call, k: Key) {
    c.Complete? && (c.tenant, c.taskId) == k && Outcome(s, c).Ok?
  }

  ghost predicate Completes(calls: seq<Call>, i: nat, k: Key) {
    i < |calls| && CompletesNow(Run(calls[..i]), calls[i], k)
  }

  ghost predicate LastCompletes(calls: seq<Call>, i: nat, k: Key) {
    Completes(calls, i, k) && forall j: nat :: i < j ==> !Completes(calls, j, k)
  }

  lemma ReceiptStep(s: Store, c: Call, k: Key)
    requires k in After(s, c).tasks
    ensures After(s, c).tasks[k].receipt ==
      if CompletesNow(s, c, k) then Some(c.receipt) else if k in s.tasks then s.tasks[k].receipt else None
  {
  }

  lemma CompletesIff(calls: seq<Call>, i: nat, k: Key)
    requires calls != []
    ensures var n := |calls| - 1;
      Completes(calls, i, k) <==>
      (i < n && Completes(calls[..n], i, k)) || (i == n && CompletesNow(Run(calls[..n]), calls[n], k))
  {
    var n := |calls| - 1;
    if i < n { assert calls[..n][..i] == calls[..i]; }
  }

  /** Its receipt is that of the last completion that succeeded; before the first it has none. */
  lemma {:induction false} ReceiptIsLatest(calls: seq<Call>, k: Key)
    requires k in Run(calls).tasks
    ensures Run(calls).tasks[k].receipt == None <==> forall i: nat :: !Completes(calls, i, k)
    ensures forall i: nat :: LastCompletes(calls, i, k) ==> Run(calls).tasks[k].receipt == Some(calls[i].receipt)
  {
    hide Completes, CompletesNow, After;
    var n := |calls| - 1;
    var before := calls[..n];
    forall i: nat { CompletesIff(calls, i, k); }
    ReceiptStep(Run(before), calls[n], k);
    if k in Run(before).tasks { ReceiptIsLatest(before, k); } else { NeverCompleted(before, k); }
    NoLater(before, k);
    if CompletesNow(Run(before), calls[n], k) {
      assert Completes(calls, n, k);
    } else {
      assert forall i: nat :: Completes(calls, i, k) <==> Completes(before, i, k);
    }
  }

  lemma NoLater(calls: seq<Call>, k: Key)
    ensures forall i: nat :: Completes(calls, i, k) ==> i < |calls|
  {
  }

  lemma {:induction false} NeverCompleted(calls: seq<Call>, k: Key)
    requires k !in Run(calls).tasks
    ensures forall i: nat :: !Completes(calls, i, k)
  {
    if calls != [] {
      NeverCompleted(calls[..|calls| - 1], k);
      forall i: nat { CompletesIff(calls, i, k); }
    }
  }

  // ---- One task's history ----

  datatype Step =
    | WasPut
    | WasClaimed(claimer: string, at: int, until: int)
    | WasCompleted(who: Option<string>, state: TaskState)

  /** What a call did to a task, if it succeeded and touched it. */
  function StepOf(s: Store, c: Call, k: Key): (r: Option<Step>) {
    if Outcome(s, c).Err? then None
    else
      match c
      case Put(t, _, _, _, id, _) => if k == (t, id) then Some(WasPut) else None
      case Claim(t, id, _, lease, now, pick) =>
        if pick.Some? && k == (t, pick.value) && k in s.tasks then Some(WasClaimed(id, now, now + lease)) else None
      case Complete(t, id, who, _, state) => if k == (t, id) then Some(WasCompleted(who, state)) else None
      case _ => None
  }

  function History(calls: seq<Call>, k: Key): (h: seq<Step>) {
    if calls == [] then []
    else
      var before := calls[..|calls| - 1];
      match StepOf(Run(before), calls[|calls| - 1], k)
      case None => History(before, k)
      case Some(step) => History(before, k) + [step]
  }

  function Claims(h: seq<Step>): (n: nat) {
    if h == [] then 0 else Claims(h[..|h| - 1]) + if h[|h| - 1].WasClaimed? then 1 else 0
  }

  /** The columns the lease machine works on. */
  ghost predicate Consistent(t: Task) {
    && (t.state == LEASED <==> t.owner.Some?) && (t.state == LEASED <==> t.until.Some?)
  }

  lemma {:induction false} LeasedIffOwned(calls: seq<Call>, k: Key)
    requires k in Run(calls).tasks
    ensures Consistent(Run(calls).tasks[k])
  {
    if calls != [] {
      var before := calls[..|calls| - 1];
      if k in Run(before).tasks { LeasedIffOwned(before, k); }
    }
  }

  lemma ClaimsAppend(h: seq<Step>, step: Step)
    ensures Claims(h + [step]) == Claims(h) + if step.WasClaimed? then 1 else 0
  {
    assert (h + [step])[..|h|] == h;
  }

  /** The attempt column counts the claims that were granted, whatever the completions did. */
  lemma {:induction false} AttemptCountsClaims(calls: seq<Call>, k: Key)
    ensures k in Run(calls).tasks <==> History(calls, k) != []
    ensures k in Run(calls).tasks ==> Run(calls).tasks[k].attempt == Claims(History(calls, k))
  {
    hide StepOf, After, Claims;
    if calls != [] {
      var before, c := calls[..|calls| - 1], calls[|calls| - 1];
      AttemptCountsClaims(before, k);
      var step := StepOf(Run(before), c, k);
      AttemptStep(Run(before), c, k);
      if step.Some? { ClaimsAppend(History(before, k), step.value); }
      NoClaims();
    }
  }

  lemma NoClaims()
    ensures Claims([]) == 0
  {
  }

  lemma AttemptStep(s: Store, c: Call, k: Key)
    ensures var step, t := StepOf(s, c, k), After(s, c);
      && (k in t.tasks <==> k in s.tasks || step.Some?)
      && (step.Some? && k !in s.tasks ==> step.value == WasPut)
      && (k in t.tasks ==> t.tasks[k].attempt == (if k in s.tasks then s.tasks[k].attempt else 0) +
                           if step.Some? && step.value.WasClaimed? then 1 else 0)
  {
  }

  // ---- The shape of every history ----

  /** Which step may follow a history: the put at its start and nowhere else, a claim after the put or
      after a lease that has ended, a named completion after a claim by the same collector, and an
      unnamed one where no lease runs. */
  ghost predicate MayFollow(h: seq<Step>, step: Step) {
    match step
    case WasPut => h == []
    case WasClaimed(_, at, _) =>
      h != [] && (h[|h| - 1].WasPut? || (h[|h| - 1].WasClaimed? && h[|h| - 1].until < at))
    case WasCompleted(who, state) =>
      && h != [] && Terminal(state)
      && (if who.Some? then h[|h| - 1].WasClaimed? && h[|h| - 1].claimer == who.value else !h[|h| - 1].WasClaimed?)
  }

  ghost predicate Shaped(h: seq<Step>) {
    forall i :: 0 <= i < |h| ==> MayFollow(h[..i], h[i])
  }

  /** Put once, first; each claim after the lease before it has run out; completed at most once,
      last, and by the latest claimer. */
  ghost predicate Lawful(h: seq<Step>) {
    && (forall i :: 0 <= i < |h| ==> (h[i].WasPut? <==> i == 0))
    && (forall i :: 0 < i < |h| && h[i].WasClaimed? && h[i - 1].WasClaimed? ==> h[i - 1].until < h[i].at)
    && (forall i :: 0 <= i < |h| && h[i].WasCompleted? ==>
          i == |h| - 1 && i > 0 && h[i - 1].WasClaimed? && h[i].who == Some(h[i - 1].claimer) && Terminal(h[i].state))
  }

  /** How a row and its history agree. */
  ghost predicate Tells(h: seq<Step>, t: Task) {
    h != [] &&
    match h[|h| - 1]
    case WasPut => t.state == QUEUED && t.owner == None && t.until == None
    case WasClaimed(claimer, _, until) => t.state == LEASED && t.owner == Some(claimer) && t.until == Some(until)
    case WasCompleted(_, state) => t.state == state && Terminal(state) && t.owner == None && t.until == None
  }

  /** Every history has the shape, unnamed completions included, and the row says what the last
      step of its history says. */
  lemma {:induction false} HistoriesAreShaped(calls: seq<Call>, k: Key)
    requires PossibleRun(calls)
    ensures Shaped(History(calls, k))
    ensures k in Run(calls).tasks <==> History(calls, k) != []
    ensures k in Run(calls).tasks ==> Tells(History(calls, k), Run(calls).tasks[k])
  {
    hide MayFollow, Tells, Possible, StepOf;
    if calls != [] {
      var before, c := calls[..|calls| - 1], calls[|calls| - 1];
      HistoriesAreShaped(before, k);
      var h, step := History(before, k), StepOf(Run(before), c, k);
      StepFollows(Run(before), c, k, h);
      if step.Some? { ShapedAppend(h, step.value); }
    }
  }

  lemma ShapedAppend(h: seq<Step>, step: Step)
    ensures Shaped(h + [step]) <==> Shaped(h) && MayFollow(h, step)
  {
    hide MayFollow;
    var h' := h + [step];
    assert h'[..|h|] == h && h'[|h|] == step;
    assert forall i :: 0 <= i < |h| ==> h'[..i] == h[..i] && h'[i] == h[i];
  }

  lemma StepFollows(s: Store, c: Call, k: Key, h: seq<Step>)
    requires Possible(s, c)
    requires k in s.tasks <==> h != []
    requires k in s.tasks ==> Tells(h, s.tasks[k])
    ensures var step := StepOf(s, c, k);
      if step.None? then
        (k in After(s, c).tasks <==> k in s.tasks) && (k in s.tasks ==> After(s, c).tasks[k] == s.tasks[k])
      else
        MayFollow(h, step.value) && k in After(s, c).tasks && Tells(h + [step.value], After(s, c).tasks[k])
  {
    hide Picks;
    if StepOf(s, c, k).Some? && c.Claim? { PickIsCandidate(s, c); }
  }

  lemma PickIsCandidate(s: Store, c: Call)
    requires c.Claim? && Possible(s, c) && Enrolled(s, c.tenant, c.claimer) && c.pick.Some?
    ensures Candidate(s, c.tenant, Allowed(s.collectors[(c.tenant, c.claimer)], c.requested), c.now,
      (c.tenant, c.pick.value))
  {
  }

  /** The clock never runs backwards over claims. */
  ghost predicate Monotone(h: seq<Step>) {
    forall i, j :: 0 <= i < j < |h| && h[i].WasClaimed? && h[j].WasClaimed? ==> h[i].at <= h[j].at
  }

  /** No claim is granted on a task while any earlier lease on it still runs, whoever completes what. */
  lemma LeasesNeverOverlap(calls: seq<Call>, k: Key, i: nat, j: nat)
    requires PossibleRun(calls) && Monotone(History(calls, k))
    requires i < j < |History(calls, k)| && History(calls, k)[i].WasClaimed? && History(calls, k)[j].WasClaimed?
    ensures History(calls, k)[i].until < History(calls, k)[j].at
  {
    hide History, PossibleRun, MayFollow;
    HistoriesAreShaped(calls, k);
    var h := History(calls, k);
    ClaimsAreAdjacent(h, i + 1, j);
    StepShape(h, i + 1);
    if i + 1 < j { assert h[i + 1].at <= h[j].at; }
  }

  /** Between two claims there are only claims. */
  lemma {:induction false} ClaimsAreAdjacent(h: seq<Step>, i: nat, j: nat)
    requires Shaped(h) && 0 < i <= j < |h| && h[j].WasClaimed?
    ensures h[i].WasClaimed?
    decreases j
  {
    if i < j {
      StepShape(h, j);
      StepShape(h, j - 1);
      ClaimsAreAdjacent(h, i, j - 1);
    }
  }

  // ---- Completion without an identity ----

  /** Every completion that went through named a collector. */
  ghost predicate Named(calls: seq<Call>) {
    forall i :: 0 <= i < |calls| && calls[i].Complete? && Outcome(Run(calls[..i]), calls[i]).Ok? ==> calls[i].who.Some?
  }

  ghost predicate NamedHistory(h: seq<Step>) {
    forall i :: 0 <= i < |h| && h[i].WasCompleted? ==> h[i].who.Some?
  }

  lemma LawfulIffNamed(h: seq<Step>)
    requires Shaped(h)
    ensures Lawful(h) <==> NamedHistory(h)
  {
    hide MayFollow, Shaped;
    if Lawful(h) {
      forall i | 0 <= i < |h| && h[i].WasCompleted? ensures h[i].who.Some? {
        assert h[i].who == Some(h[i - 1].claimer);
      }
    }
    if NamedHistory(h) {
      forall i | 0 <= i < |h| { StepShape(h, i); }
      forall i | 0 <= i < |h| && h[i].WasCompleted? ensures i == |h| - 1 { CompletedLast(h, i); }
    }
  }

  lemma CompletedLast(h: seq<Step>, i: nat)
    requires Shaped(h) && NamedHistory(h) && i < |h| && h[i].WasCompleted?
    ensures i == |h| - 1
  {
    hide MayFollow, Shaped;
    if i + 1 < |h| { StepShape(h, i + 1); }
  }

  /** What precedes a step. */
  lemma StepShape(h: seq<Step>, i: nat)
    requires Shaped(h) && i < |h|
    ensures h[i].WasPut? <==> i == 0
    ensures i > 0 && h[i].WasClaimed? ==> h[i - 1].WasPut? || (h[i - 1].WasClaimed? && h[i - 1].until < h[i].at)
    ensures h[i].WasCompleted? ==> i > 0 && Terminal(h[i].state)
    ensures h[i].WasCompleted? && h[i].who.Some? ==> h[i - 1].WasClaimed? && h[i].who == Some(h[i - 1].claimer)
    ensures i > 0 && h[i - 1].WasCompleted? ==> h[i].WasCompleted? && h[i].who == None
  {
    assert MayFollow(h[..i], h[i]);
  }

  lemma NamedStep(calls: seq<Call>)
    requires calls != []
    ensures var before, c := calls[..|calls| - 1], calls[|calls| - 1];
      Named(calls) <==> Named(before) && (c.Complete? && Outcome(Run(before), c).Ok? ==> c.who.Some?)
  {
    hide Run, Outcome;
    var before := calls[..|calls| - 1];
    assert forall i :: 0 <= i < |before| ==> before[i] == calls[i] && before[..i] == calls[..i];
  }

  ghost predicate NamedHistories(calls: seq<Call>) {
    forall k :: NamedHistory(History(calls, k))
  }

  /** Histories name every completer exactly when every successful completion does. */
  lemma {:induction false} NamedIffHistories(calls: seq<Call>)
    ensures Named(calls) <==> NamedHistories(calls)
  {
    if calls == [] {
      EmptyHistories();
    } else {
      NamedIffHistories(calls[..|calls| - 1]);
      NamedStep(calls);
      NamedHistoriesStep(calls);
    }
  }

  lemma NamedHistoriesStep(calls: seq<Call>)
    requires calls != []
    ensures var before, c := calls[..|calls| - 1], calls[|calls| - 1];
      NamedHistories(calls) <==> NamedHistories(before) && (c.Complete? && Outcome(Run(before), c).Ok? ==> c.who.Some?)
  {
    hide StepOf, Outcome, NamedHistory, Run;
    var before, c := calls[..|calls| - 1], calls[|calls| - 1];
    CompletionIsStep(Run(before), c);
    forall k
      ensures NamedHistory(History(calls, k)) <==>
        NamedHistory(History(before, k)) && (c.Complete? && StepOf(Run(before), c, k).Some? ==> c.who.Some?)
    {
      NamedHistoryStep(calls, k);
    }
    if NamedHistories(calls) && c.Complete? { assert NamedHistory(History(calls, (c.tenant, c.taskId))); }
  }

  lemma EmptyHistories()
    ensures NamedHistories([])
  {
  }

  lemma CompletionIsStep(s: Store, c: Call)
    ensures c.Complete? && Outcome(s, c).Ok? ==> StepOf(s, c, (c.tenant, c.taskId)).Some?
    ensures c.Complete? && Outcome(s, c).Err? ==> forall k :: StepOf(s, c, k) == None
  {
  }

  lemma NamedHistoryStep(calls: seq<Call>, k: Key)
    requires calls != []
    ensures var before, c := calls[..|calls| - 1], calls[|calls| - 1];
      NamedHistory(History(calls, k)) <==>
        NamedHistory(History(before, k)) && (c.Complete? && StepOf(Run(before), c, k).Some? ==> c.who.Some?)
  {
    var before, c := calls[..|calls| - 1], calls[|calls| - 1];
    var h, step := History(before, k), StepOf(Run(before), c, k);
    if step.Some? {
      assert History(calls, k) == h + [step.value];
      assert forall i :: 0 <= i < |h| ==> (h + [step.value])[i] == h[i];
      assert (h + [step.value])[|h|] == step.value;
    }
  }

  /** A run leaves every task a lawful history exactly when every completion that went through
      named a collector. */
  lemma HistoriesAreLawful(calls: seq<Call>)
    requires PossibleRun(calls)
    ensures Named(calls) <==> forall k :: Lawful(History(calls, k))
  {
    hide Named, Lawful, NamedHistory, Shaped, PossibleRun;
    NamedIffHistories(calls);
    forall k ensures Lawful(History(calls, k)) <==> NamedHistory(History(calls, k)) {
      HistoriesAreShaped(calls, k);
      LawfulIffNamed(History(calls, k));
    }
    if !Named(calls) {
      var k :| !NamedHistory(History(calls, k));
      assert !Lawful(History(calls, k));
    }
  }

  /** A task that has reached a terminal state stays exactly as it is. */
  lemma {:induction false} TerminalForever(calls: seq<Call>, n: nat, k: Key)
    requires n <= |calls| && PossibleRun(calls) && Named(calls)
    requires k in Run(calls[..n]).tasks && Terminal(Run(calls[..n]).tasks[k].state)
    ensures k in Run(calls).tasks && Run(calls).tasks[k] == Run(calls[..n]).tasks[k]
    decreases |calls|
  {
    hide Named;
    if n == |calls| {
      assert calls[..n] == calls;
    } else {
      var before := calls[..|calls| - 1];
      assert before[..n] == calls[..n];
      NamedStep(calls);
      TerminalForever(before, n, k);
      LeasedIffOwned(before, k);
    }
  }

  /** A completion that succeeds was made on a leased task exactly when it named a collector. */
  lemma {:induction false} CompletionNeedsIdentity(
      calls: seq<Call>, tenant: string, taskId: string, who: Option<string>, receipt: string, state: TaskState)
    requires CompleteTask(Run(calls), tenant, taskId, who, receipt, state).Ok?
    ensures Run(calls).tasks[(tenant, taskId)].state == LEASED <==> who.Some?
  {
    LeasedIffOwned(calls, (tenant, taskId));
  }

  /** A caller without an id completes a task nobody claimed, and then moves it from one terminal
      state to another. */
  lemma AnonymousCompletion()
    ensures var calls := [NewCase("t", "c"), Put("t", "c", "disk", "{}", "k", 0),
                          Complete("t", "k", None, "{}", COMPLETE), Complete("t", "k", None, "{}", FAILED)];
      PossibleRun(calls) &&
      ("t", "k") in Run(calls[..3]).tasks && Run(calls[..3]).tasks[("t", "k")].state == COMPLETE &&
      Run(calls[..3]).tasks[("t", "k")].attempt == 0 &&
      ("t", "k") in Run(calls).tasks && Run(calls).tasks[("t", "k")].state == FAILED
  {
    var a, b, c, d := NewCase("t", "c"), Put("t", "c", "disk", "{}", "k", 0),
      Complete("t", "k", None, "{}", COMPLETE), Complete("t", "k", None, "{}", FAILED);
    RunAppend([], a);
    RunAppend([a], b);
    RunAppend([a, b], c);
    RunAppend([a, b, c], d);
    assert [] + [a] == [a] && [a] + [b] == [a, b] && [a, b] + [c] == [a, b, c] && [a, b, c] + [d] == [a, b, c, d];
    assert [a, b, c, d][..3] == [a, b, c];
  }

  lemma RunAppend(calls: seq<Call>, c: Call)
    ensures Run(calls + [c]) == After(Run(calls), c)
    ensures PossibleRun(calls + [c]) <==> PossibleRun(calls) && Possible(Run(calls), c)
  {
    assert (calls + [c])[..|calls|] == calls;
  }
}
