/** Signed containment controls and the guard that caches them. */
module Containment {
  import opened Wrappers
  import opened Encodings

  /** The stat triple: inode, size, modification time. */
  type Stat = (int, int, int)

  /** A control as the guard uses it; a missing mode reads as released. */
  datatype Payload = Payload(mode: string, readOnlyTools: set<string>, approvedBackend: string)

  const RELEASED := Payload("released", {}, "")
  const QUARANTINE := Payload("quarantine", {}, "")

  /** One version of the control file. */
  datatype Version = Version(stat: Stat, content: Bytes)

  /** `check` reads a file's content: the payload if it parses, its signature verifies and its
      schema is right. */
  datatype Config = Config(check: Bytes -> Option<Payload>, failClosed: bool)

  datatype Decision<+T> = Allowed(value: T) | Denied | Raised

  // ---- What a guard without a cache would use ----

  /** None where re-verifying on every call would raise. */
  function Effective(c: Config, file: Option<Version>): (p: Option<Payload>) {
    match file
    case None => Some(RELEASED)
    case Some(v) =>
      match c.check(v.content)
      case Some(p) => Some(p)
      case None => if c.failClosed then Some(QUARANTINE) else None
  }

  function InferenceDecision(p: Payload): (d: Decision<()>) {
    if p.mode in {"quarantine", "failover"} then Denied else Allowed(())
  }

  function ToolDecision(p: Payload, tool: string, mutating: bool): (d: Decision<()>) {
    if p.mode in {"quarantine", "failover", "freeze-tools"} then Denied
    else if p.mode == "read-only" && (mutating || tool !in p.readOnlyTools) then Denied
    else Allowed(())
  }

  function RoutingDecision(p: Payload, backend: string): (d: Decision<string>) {
    if p.mode == "failover" then (if p.approvedBackend == "" then Denied else Allowed(p.approvedBackend))
    else Allowed(backend)
  }

  /** Mode by mode: what may run, what a tool may do, and where inference goes. */
  lemma ModesMean(p: Payload, tool: string, mutating: bool, backend: string)
    ensures p.mode == "quarantine" ==>
      InferenceDecision(p) == Denied && ToolDecision(p, tool, mutating) == Denied &&
      RoutingDecision(p, backend) == Allowed(backend)
    ensures p.mode == "failover" ==>
      InferenceDecision(p) == Denied && ToolDecision(p, tool, mutating) == Denied &&
      RoutingDecision(p, backend) == (if p.approvedBackend == "" then Denied else Allowed(p.approvedBackend))
    ensures p.mode == "freeze-tools" ==>
      InferenceDecision(p) == Allowed(()) && ToolDecision(p, tool, mutating) == Denied &&
      RoutingDecision(p, backend) == Allowed(backend)
    ensures p.mode == "read-only" ==>
      InferenceDecision(p) == Allowed(()) &&
      (ToolDecision(p, tool, mutating) == Allowed(()) <==> !mutating && tool in p.readOnlyTools) &&
      (ToolDecision(p, tool, mutating) == Denied <==> mutating || tool !in p.readOnlyTools) &&
      RoutingDecision(p, backend) == Allowed(backend)
    ensures p.mode !in {"quarantine", "failover", "freeze-tools", "read-only"} ==>
      InferenceDecision(p) == Allowed(()) && ToolDecision(p, tool, mutating) == Allowed(()) &&
      RoutingDecision(p, backend) == Allowed(backend)
  {
  }

  /** A control that does not verify stops everything where the guard fails closed, and everything
      raises where it does not. */
  lemma UnverifiedFailsClosed(c: Config, v: Version, tool: string, mutating: bool)
    requires c.check(v.content) == None
    ensures c.failClosed ==>
      Effective(c, Some(v)).Some? && InferenceDecision(Effective(c, Some(v)).value) == Denied &&
      ToolDecision(Effective(c, Some(v)).value, tool, mutating) == Denied
    ensures !c.failClosed ==> Effective(c, Some(v)) == None
    ensures Effective(c, None) == Some(RELEASED)
  {
  }

  // ---- The guard ----

  datatype Cache = Cache(signature: Option<Stat>, payload: Payload)

  const NEW_GUARD := Cache(None, RELEASED)

  /** _refresh: the cache afterwards, and whether it raised. */
  function Refreshed(c: Config, g: Cache, file: Option<Version>): (r: (Cache, bool)) {
    match file
    case None => (NEW_GUARD, false)
    case Some(v) =>
      if g.signature == Some(v.stat) then (g, false)
      else
        match c.check(v.content)
        case Some(p) => (Cache(Some(v.stat), p), false)
        case None => if c.failClosed then (Cache(Some(v.stat), QUARANTINE), false) else (g, true)
  }

  class ContainmentGuard {
    const c: Config
    var signature: Option<Stat>
    var payload: Payload

    function State(): (g: Cache)
      reads this
    {
      Cache(signature, payload)
    }

    constructor (c: Config)
      ensures this.c == c && State() == NEW_GUARD
    {
      this.c, signature, payload := c, None, RELEASED;
    }

    method Refresh(file: Option<Version>) returns (raised: bool)
      modifies this
      ensures (State(), raised) == Refreshed(c, old(State()), file)
    {
      if file == None {
        signature, payload := None, RELEASED;
        return false;
      }
      if signature == Some(file.value.stat) { return false; }
      match c.check(file.value.content) {
        case Some(p) => signature, payload := Some(file.value.stat), p;
        case None =>
          if !c.failClosed { return true; }
          signature, payload := Some(file.value.stat), QUARANTINE;
      }
      raised := false;
    }

    method AllowInference(file: Option<Version>) returns (d: Decision<()>)
      modifies this
      ensures State() == Refreshed(c, old(State()), file).0
      ensures d == if Refreshed(c, old(State()), file).1 then Raised else InferenceDecision(payload)
    {
      var raised := Refresh(file);
      if raised { return Raised; }
      d := if payload.mode == "quarantine" || payload.mode == "failover" then Denied else Allowed(());
    }

    method AuthorizeTool(file: Option<Version>, tool: string, mutating: bool) returns (d: Decision<()>)
      modifies this
      ensures State() == Refreshed(c, old(State()), file).0
      ensures d == if Refreshed(c, old(State()), file).1 then Raised else ToolDecision(payload, tool, mutating)
    {
      var raised := Refresh(file);
      if raised { return Raised; }
      if payload.mode in {"quarantine", "failover", "freeze-tools"} { return Denied; }
      if payload.mode == "read-only" {
        if mutating || tool !in payload.readOnlyTools { return Denied; }
      }
      d := Allowed(());
    }

    method RoutingTarget(file: Option<Version>, backend: string) returns (d: Decision<string>)
      modifies this
      ensures State() == Refreshed(c, old(State()), file).0
      ensures d == if Refreshed(c, old(State()), file).1 then Raised else RoutingDecision(payload, backend)
    {
      var raised := Refresh(file);
      if raised { return Raised; }
      if payload.mode == "failover" {
        if payload.approvedBackend == "" { return Denied; }
        return Allowed(payload.approvedBackend);
      }
      d := Allowed(backend);
    }
  }

  // ---- Interleavings of writers and guard calls ----

  datatype Event = Write(version: Version) | Delete | Call

  datatype World = World(file: Option<Version>, guard: Cache)

  function Next(c: Config, w: World, e: Event): (u: World) {
    match e
    case Write(v) => w.(file := Some(v))
    case Delete => w.(file := None)
    case Call => w.(guard := Refreshed(c, w.guard, w.file).0)
  }

  function Run(c: Config, es: seq<Event>): (w: World) {
    if es == [] then World(None, NEW_GUARD) else Next(c, Run(c, es[..|es| - 1]), es[|es| - 1])
  }

  function Versions(es: seq<Event>): (s: set<Version>) {
    set e | e in es && e.Write? :: e.version
  }

  /** Two versions with one stat triple have one content. */
  ghost predicate StatsTellContents(vs: set<Version>) {
    forall v, w :: v in vs && w in vs && v.stat == w.stat ==> v.content == w.content
  }

  /** A signature in the cache is that of some written version whose verdict is cached with it. */
  ghost predicate Coherent(c: Config, vs: set<Version>, w: World) {
    && (w.file.Some? ==> w.file.value in vs)
    && (w.guard.signature.Some? ==>
          exists v :: v in vs && v.stat == w.guard.signature.value && Effective(c, Some(v)) == Some(w.guard.payload))
  }

  lemma {:induction false} RunCoherent(c: Config, es: seq<Event>, vs: set<Version>)
    requires Versions(es) <= vs
    ensures Coherent(c, vs, Run(c, es))
  {
    if es != [] {
      var before, e := es[..|es| - 1], es[|es| - 1];
      assert es == before + [e];
      forall v | v in Versions(before) ensures v in vs { assert v in Versions(es); }
      RunCoherent(c, before, vs);
      if e.Write? { assert e.version in Versions(es); }
    }
  }

  /** The guard's verdict: the payload its next decision reads, or None where it raises. */
  function Verdict(c: Config, w: World): (p: Option<Payload>) {
    var r := Refreshed(c, w.guard, w.file);
    if r.1 then None else Some(r.0.payload)
  }

  /** After every interleaving of deletions, calls and writes of these versions, the caching guard
      decides as one that re-reads and re-verifies the file on every call. */
  ghost predicate Transparent(c: Config, vs: set<Version>) {
    forall es :: Versions(es) <= vs ==> Verdict(c, Run(c, es)) == Effective(c, Run(c, es).file)
  }

  /** Versions with one stat triple have one verdict. */
  ghost predicate StatsTellVerdicts(c: Config, vs: set<Version>) {
    forall v, w :: v in vs && w in vs && v.stat == w.stat ==> Effective(c, Some(v)) == Effective(c, Some(w))
  }

  /** The cache is transparent exactly when the stat triple tells the verdicts of the written
      versions apart, failing closed or open. */
  lemma TransparentIff(c: Config, vs: set<Version>)
    ensures Transparent(c, vs) <==> StatsTellVerdicts(c, vs)
  {
    if StatsTellVerdicts(c, vs) {
      forall es | Versions(es) <= vs ensures Verdict(c, Run(c, es)) == Effective(c, Run(c, es).file) {
        RunCoherent(c, es, vs);
        CoherentVerdict(c, vs, Run(c, es));
      }
    }
    if Transparent(c, vs) {
      forall v, w | v in vs && w in vs && v.stat == w.stat && Effective(c, Some(v)).Some?
        ensures Effective(c, Some(v)) == Effective(c, Some(w))
      {
        var es := [Write(v), Call, Write(w)];
        assert Versions(es) <= vs;
        SameStatIsNotReread(c, v, w);
      }
    }
  }

  lemma CoherentVerdict(c: Config, vs: set<Version>, w: World)
    requires StatsTellVerdicts(c, vs) && Coherent(c, vs, w)
    ensures Verdict(c, w) == Effective(c, w.file)
  {
    if w.file.Some? && w.guard.signature == Some(w.file.value.stat) {
      var v :| v in vs && v.stat == w.guard.signature.value && Effective(c, Some(v)) == Some(w.guard.payload);
    }
  }

  /** In particular, after any interleaving, while the stat triple changes with the content. */
  lemma CacheIsTransparent(c: Config, es: seq<Event>)
    requires StatsTellContents(Versions(es))
    ensures Verdict(c, Run(c, es)) == Effective(c, Run(c, es).file)
  {
    TransparentIff(c, Versions(es));
  }

  /** A version that is written over a cached one of the same stat triple is not seen. */
  lemma SameStatIsNotReread(c: Config, v: Version, w: Version)
    requires v.stat == w.stat && Effective(c, Some(v)).Some?
    ensures var es := [Write(v), Call, Write(w)];
      Verdict(c, Run(c, es)) == Effective(c, Some(v)) && Run(c, es).file == Some(w)
  {
    assert Run(c, []) == World(None, NEW_GUARD);
    hide Run;
    RunAppend(c, [], Write(v));
    RunAppend(c, [Write(v)], Call);
    RunAppend(c, [Write(v), Call], Write(w));
    assert [] + [Write(v)] == [Write(v)] && [Write(v)] + [Call] == [Write(v), Call] &&
           [Write(v), Call] + [Write(w)] == [Write(v), Call, Write(w)];
  }

  lemma RunAppend(c: Config, es: seq<Event>, e: Event)
    ensures Run(c, es + [e]) == Next(c, Run(c, es), e)
  {
    assert (es + [e])[..|es|] == es;
  }

  // ---- create_control ----

  const VALID_MODES: set<string> := {"observe", "freeze-tools", "read-only", "quarantine", "failover", "released"}

  /** The payload create_control signs; None where it refuses. */
  function CreateControl(mode: string, approvedBackend: string, tools: seq<string>): (p: Option<Payload>) {
    if mode !in VALID_MODES then None
    else if mode == "failover" && approvedBackend == "" then None
    else Some(Payload(mode, (set t | t in tools), approvedBackend))
  }

  /** create_control refuses an unknown mode and a failover without a target, and nothing else. */
  lemma CreateControlRefusesIff(mode: string, approvedBackend: string, tools: seq<string>)
    ensures var p := CreateControl(mode, approvedBackend, tools);
      && (p == None <==>
           mode !in {"observe", "freeze-tools", "read-only", "quarantine", "failover", "released"} ||
           (mode == "failover" && approvedBackend == ""))
      && (p.Some? ==>
           p.value.mode == mode && p.value.approvedBackend == approvedBackend &&
           forall t :: t in p.value.readOnlyTools <==> t in tools)
  {
  }

  /** The content is a signed control that create_control made, or one that does not verify. */
  ghost predicate MadeByCreate(c: Config, v: Version) {
    c.check(v.content).Some? ==>
      exists mode, backend, tools :: CreateControl(mode, backend, tools) == c.check(v.content)
  }

  /** While every control that verifies was made by create_control, failover routing always has a
      target, whatever the cache holds. */
  lemma FailoverHasTarget(c: Config, es: seq<Event>, backend: string)
    requires forall v :: v in Versions(es) ==> MadeByCreate(c, v)
    ensures Verdict(c, Run(c, es)).Some? ==>
      RoutingDecision(Verdict(c, Run(c, es)).value, backend) ==
        var payload := Verdict(c, Run(c, es)).value;
        Allowed(if payload.mode == "failover" then payload.approvedBackend else backend)
  {
    var w := Run(c, es);
    RunCoherent(c, es, Versions(es));
    if Verdict(c, w).Some? { VerdictComesFromVersion(c, w, Versions(es)); }
  }

  lemma VerdictComesFromVersion(c: Config, w: World, vs: set<Version>)
    requires Coherent(c, vs, w) && Verdict(c, w).Some? && forall v :: v in vs ==> MadeByCreate(c, v)
    ensures Verdict(c, w).value.mode == "failover" ==> Verdict(c, w).value.approvedBackend != ""
  {
    var p := Verdict(c, w).value;
    if p != RELEASED && p != QUARANTINE {
      var v :| v in vs && c.check(v.content) == Some(p);
      assert MadeByCreate(c, v);
      var mode, approved, tools :| CreateControl(mode, approved, tools) == Some(p);
    }
  }
}
