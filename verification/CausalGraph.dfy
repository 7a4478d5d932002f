/** Building the typed causal graph from events, and judging causal claims on it. */
module CausalGraph {
  import opened CausalPaths

  /** An edge as an event states it, before it is checked. */
  datatype Stated = Stated(source: Id, target: Id, kind: string, evidence: seq<Id>, confidence: real, origin: string)

  /** A normalized event; an empty id stands for an absent one. */
  datatype Event = Event(
    id: Id, parent: Id, causes: seq<Id>, correlations: seq<Id>, references: map<string, Id>, typed: seq<Stated>)

  datatype Finding =
    | UnknownCausalEdgeType(kind: string, source: Id, target: Id)
    | CausalClaimUnsupported(claim: Claim)

  /** The metadata fields that state an edge, in the order they are read. */
  const REFERENCES: seq<(string, string)> := [
    ("source_event_id", "derived_from"), ("authorization_event_id", "authorized_by"),
    ("delegation_event_id", "delegated_by"), ("scheduled_by_event_id", "scheduled_by"),
    ("retrieval_event_id", "retrieved_from"), ("transform_event_id", "transformed_from"),
    ("route_event_id", "routed_by"), ("executor_event_id", "executed_by")]

  // ---- What the events state ----

  function Causes(cs: seq<Id>, id: Id): (r: seq<Stated>) {
    if cs == [] then []
    else Causes(cs[..|cs| - 1], id) + [Stated(cs[|cs| - 1], id, "caused_by", [cs[|cs| - 1], id], 1.0, "explicit_cause")]
  }

  function Correlations(cs: seq<Id>, id: Id, nodes: set<Id>): (r: seq<Stated>) {
    if cs == [] then []
    else
      var c := cs[|cs| - 1];
      Correlations(cs[..|cs| - 1], id, nodes) +
      if c in nodes then [Stated(c, id, "correlated_with", [c, id], 0.3, "explicit_correlation")] else []
  }

  function References(e: Event, n: nat): (r: seq<Stated>)
    requires n <= |REFERENCES|
  {
    if n == 0 then []
    else
      var (field, kind) := REFERENCES[n - 1];
      References(e, n - 1) +
      if field in e.references && e.references[field] != "" then
        [Stated(e.references[field], e.id, kind, [e.references[field], e.id], 1.0, "metadata")]
      else []
  }

  /** A typed edge without a target enters the event that states it. */
  function Typed(xs: seq<Stated>, id: Id): (r: seq<Stated>) {
    if xs == [] then []
    else
      var x := xs[|xs| - 1];
      Typed(xs[..|xs| - 1], id) + [if x.target == "" then x.(target := id) else x]
  }

  function Parent(e: Event): (r: seq<Stated>) {
    if e.parent == "" then [] else [Stated(e.parent, e.id, "caused_by", [e.parent, e.id], 0.8, "normalized_parent")]
  }

  function StatedBy(e: Event, nodes: set<Id>): (r: seq<Stated>) {
    Parent(e) + Causes(e.causes, e.id) + Correlations(e.correlations, e.id, nodes) +
    References(e, |REFERENCES|) + Typed(e.typed, e.id)
  }

  function StatedByAll(events: seq<Event>, nodes: set<Id>): (r: seq<Stated>) {
    if events == [] then []
    else StatedByAll(events[..|events| - 1], nodes) + StatedBy(events[|events| - 1], nodes)
  }

  function Nodes(events: seq<Event>): (r: set<Id>) { set e | e in events && e.id != "" :: e.id }

  predicate Complete(x: Stated) { x.source != "" && x.target != "" }

  function AsEdge(x: Stated): (e: Edge) {
    Edge(x.source, x.target, x.kind, if x.evidence == [] then [x.target] else x.evidence, x.confidence, x.origin)
  }

  function Accepted(xs: seq<Stated>): (r: seq<Edge>) {
    if xs == [] then []
    else
      var x := xs[|xs| - 1];
      Accepted(xs[..|xs| - 1]) + if Complete(x) && x.kind in EDGE_TYPES then [AsEdge(x)] else []
  }

  function Refused(xs: seq<Stated>): (r: seq<Finding>) {
    if xs == [] then []
    else
      var x := xs[|xs| - 1];
      Refused(xs[..|xs| - 1]) +
      if Complete(x) && x.kind !in EDGE_TYPES then [UnknownCausalEdgeType(x.kind, x.source, x.target)] else []
  }

  function GraphEdges(events: seq<Event>): (r: seq<Edge>) { Accepted(StatedByAll(events, Nodes(events))) }

  // ---- Which events give which edge ----

  /** An event states an edge through its parent, a cause, a correlation with a known event, a
      metadata field that is filled in, or a typed edge of its own. */
  ghost predicate States(e: Event, nodes: set<Id>, x: Stated) {
    || (e.parent != "" && x == Stated(e.parent, e.id, "caused_by", [e.parent, e.id], 0.8, "normalized_parent"))
    || (exists c :: c in e.causes && x == Stated(c, e.id, "caused_by", [c, e.id], 1.0, "explicit_cause"))
    || (exists c ::
      c in e.correlations && c in nodes &&
        x == Stated(c, e.id, "correlated_with", [c, e.id], 0.3, "explicit_correlation"))
    || (exists f :: f in REFERENCES && f.0 in e.references && e.references[f.0] != "" &&
          x == Stated(e.references[f.0], e.id, f.1, [e.references[f.0], e.id], 1.0, "metadata"))
    || (exists t :: t in e.typed && x == if t.target == "" then t.(target := e.id) else t)
  }

  lemma {:induction false} CausesStated(cs: seq<Id>, id: Id, x: Stated)
    ensures x in Causes(cs, id) <==>
      exists c :: c in cs && x == Stated(c, id, "caused_by", [c, id], 1.0, "explicit_cause")
  {
    if cs != [] {
      CausesStated(cs[..|cs| - 1], id, x);
      assert cs == cs[..|cs| - 1] + [cs[|cs| - 1]];
    }
  }

  lemma {:induction false} CorrelationsStated(cs: seq<Id>, id: Id, nodes: set<Id>, x: Stated)
    ensures x in Correlations(cs, id, nodes) <==>
      exists c :: c in cs && c in nodes && x == Stated(c, id, "correlated_with", [c, id], 0.3, "explicit_correlation")
  {
    if cs != [] {
      CorrelationsStated(cs[..|cs| - 1], id, nodes, x);
      assert cs == cs[..|cs| - 1] + [cs[|cs| - 1]];
    }
  }

  lemma {:induction false} ReferencesStated(e: Event, n: nat, x: Stated)
    requires n <= |REFERENCES|
    ensures x in References(e, n) <==>
      exists f :: f in REFERENCES[..n] && f.0 in e.references && e.references[f.0] != "" &&
        x == Stated(e.references[f.0], e.id, f.1, [e.references[f.0], e.id], 1.0, "metadata")
  {
    if n > 0 {
      ReferencesStated(e, n - 1, x);
      assert REFERENCES[..n] == REFERENCES[..n - 1] + [REFERENCES[n - 1]];
    }
  }

  lemma {:induction false} TypedStated(xs: seq<Stated>, id: Id, x: Stated)
    ensures x in Typed(xs, id) <==> exists t :: t in xs && x == if t.target == "" then t.(target := id) else t
  {
    if xs != [] {
      TypedStated(xs[..|xs| - 1], id, x);
      assert xs == xs[..|xs| - 1] + [xs[|xs| - 1]];
    }
  }

  lemma StatedByIff(e: Event, nodes: set<Id>, x: Stated)
    ensures x in StatedBy(e, nodes) <==> States(e, nodes, x)
  {
    hide Causes, Correlations, References, Typed;
    CausesStated(e.causes, e.id, x);
    CorrelationsStated(e.correlations, e.id, nodes, x);
    ReferencesStated(e, |REFERENCES|, x);
    TypedStated(e.typed, e.id, x);
    assert REFERENCES[..|REFERENCES|] == REFERENCES;
  }

  lemma {:induction false} StatedByAllIff(events: seq<Event>, nodes: set<Id>, x: Stated)
    ensures x in StatedByAll(events, nodes) <==> exists e :: e in events && States(e, nodes, x)
  {
    hide StatedBy, States;
    if events != [] {
      var front, last := events[..|events| - 1], events[|events| - 1];
      StatedByAllIff(front, nodes, x);
      StatedByIff(last, nodes, x);
      assert events == front + [last];
    }
  }

  lemma {:induction false} AcceptedIff(xs: seq<Stated>, e: Edge)
    ensures e in Accepted(xs) <==> exists x :: x in xs && Complete(x) && x.kind in EDGE_TYPES && e == AsEdge(x)
  {
    hide AsEdge;
    if xs != [] {
      AcceptedIff(xs[..|xs| - 1], e);
      assert xs == xs[..|xs| - 1] + [xs[|xs| - 1]];
    }
  }

  lemma {:induction false} RefusedIff(xs: seq<Stated>, f: Finding)
    ensures f in Refused(xs) <==>
      exists x ::
        x in xs && Complete(x) && x.kind !in EDGE_TYPES && f == UnknownCausalEdgeType(x.kind, x.source, x.target)
  {
    if xs != [] {
      RefusedIff(xs[..|xs| - 1], f);
      assert xs == xs[..|xs| - 1] + [xs[|xs| - 1]];
    }
  }

  /** Some event states `x`, with both ends. */
  ghost predicate StatedBySome(events: seq<Event>, x: Stated) {
    exists ev ::
      ev in events && States(ev, set o | o in events && o.id != "" :: o.id, x) && x.source != "" && x.target != ""
  }

  lemma StatedBySomeIff(events: seq<Event>, x: Stated)
    ensures x in StatedByAll(events, Nodes(events)) && Complete(x) <==> StatedBySome(events, x)
  {
    hide States, StatedByAll;
    StatedByAllIff(events, Nodes(events), x);
  }

  /** The graph has an edge exactly where an event states it, with both ends and a known type; its
      target is its evidence if none is given. */
  lemma EdgesAreStated(events: seq<Event>, e: Edge)
    ensures e in GraphEdges(events) <==>
      exists x :: StatedBySome(events, x) && x.kind in EDGE_TYPES && e.source == x.source && e.target == x.target &&
        e.kind == x.kind && e.evidence == (if x.evidence == [] then [x.target] else x.evidence) &&
        e.confidence == x.confidence && e.origin == x.origin
  {
    hide StatedBySome, Complete, Accepted, StatedByAll;
    AcceptedIff(StatedByAll(events, Nodes(events)), e);
    forall x { StatedBySomeIff(events, x); }
  }

  /** A finding names exactly a statement with both ends and an unknown type. */
  lemma FindingsAreStated(events: seq<Event>, f: Finding)
    ensures f in Refused(StatedByAll(events, Nodes(events))) <==>
      exists x ::
        StatedBySome(events, x) && x.kind !in EDGE_TYPES && f == UnknownCausalEdgeType(x.kind, x.source, x.target)
  {
    hide StatedBySome, Complete, Refused, StatedByAll;
    RefusedIff(StatedByAll(events, Nodes(events)), f);
    forall x { StatedBySomeIff(events, x); }
  }

  // ---- build() ----

  class GraphBuilder {
    var edges: seq<Edge>
    var findings: seq<Finding>
    ghost var stated: seq<Stated>

    ghost predicate Valid()
      reads this
    {
      edges == Accepted(stated) && findings == Refused(stated)
    }

    constructor ()
      ensures Valid() && stated == []
    {
      edges, findings, stated := [], [], [];
    }

    method Add(x: Stated)
      requires Valid()
      modifies this
      ensures Valid() && stated == old(stated) + [x]
    {
      stated := stated + [x];
      assert stated[..|stated| - 1] == old(stated);
      if x.source == "" || x.target == "" { return; }
      if x.kind !in EDGE_TYPES {
        findings := findings + [UnknownCausalEdgeType(x.kind, x.source, x.target)];
        return;
      }
      edges := edges + [AsEdge(x)];
    }

    method AddCauses(e: Event)
      requires Valid()
      modifies this
      ensures Valid() && stated == old(stated) + Causes(e.causes, e.id)
    {
      for i := 0 to |e.causes|
        invariant Valid() && stated == old(stated) + Causes(e.causes[..i], e.id)
      {
        var c := e.causes[i];
        assert e.causes[..i + 1][..i] == e.causes[..i];
        Add(Stated(c, e.id, "caused_by", [c, e.id], 1.0, "explicit_cause"));
      }
      assert e.causes[..|e.causes|] == e.causes;
    }

    method AddCorrelations(e: Event, nodes: set<Id>)
      requires Valid()
      modifies this
      ensures Valid() && stated == old(stated) + Correlations(e.correlations, e.id, nodes)
    {
      for i := 0 to |e.correlations|
        invariant Valid() && stated == old(stated) + Correlations(e.correlations[..i], e.id, nodes)
      {
        var c := e.correlations[i];
        assert e.correlations[..i + 1][..i] == e.correlations[..i];
        if c in nodes { Add(Stated(c, e.id, "correlated_with", [c, e.id], 0.3, "explicit_correlation")); }
      }
      assert e.correlations[..|e.correlations|] == e.correlations;
    }

    method AddReferences(e: Event)
      requires Valid()
      modifies this
      ensures Valid() && stated == old(stated) + References(e, |REFERENCES|)
    {
      hide Accepted, Refused;
      for i := 0 to |REFERENCES|
        invariant Valid() && stated == old(stated) + References(e, i)
      {
        var (field, kind) := REFERENCES[i];
        if field in e.references && e.references[field] != "" {
          Add(Stated(e.references[field], e.id, kind, [e.references[field], e.id], 1.0, "metadata"));
        }
      }
    }

    method AddTyped(e: Event)
      requires Valid()
      modifies this
      ensures Valid() && stated == old(stated) + Typed(e.typed, e.id)
    {
      for i := 0 to |e.typed|
        invariant Valid() && stated == old(stated) + Typed(e.typed[..i], e.id)
      {
        var x := e.typed[i];
        assert e.typed[..i + 1][..i] == e.typed[..i];
        Add(if x.target == "" then x.(target := e.id) else x);
      }
      assert e.typed[..|e.typed|] == e.typed;
    }

    method AddEvent(e: Event, nodes: set<Id>)
      requires Valid()
      modifies this
      ensures Valid() && stated == old(stated) + StatedBy(e, nodes)
    {
      ghost var start := stated;
      AddParent(e);
      hide Valid, Parent, Causes, Correlations, References, Typed;
      AddCauses(e);
      AddCorrelations(e, nodes);
      AddReferences(e);
      AddTyped(e);
      Regroup(start, Parent(e), Causes(e.causes, e.id), Correlations(e.correlations, e.id, nodes),
              References(e, |REFERENCES|), Typed(e.typed, e.id));
    }

    method AddParent(e: Event)
      requires Valid()
      modifies this
      ensures Valid() && stated == old(stated) + Parent(e)
    {
      if e.parent != "" { Add(Stated(e.parent, e.id, "caused_by", [e.parent, e.id], 0.8, "normalized_parent")); }
    }
  }

  lemma Regroup<T>(s: seq<T>, a: seq<T>, b: seq<T>, c: seq<T>, d: seq<T>, e: seq<T>)
    ensures s + a + b + c + d + e == s + (a + b + c + d + e)
  {
  }

  method Build(events: seq<Event>) returns (edges: seq<Edge>, findings: seq<Finding>)
    ensures edges == GraphEdges(events)
    ensures findings == Refused(StatedByAll(events, Nodes(events)))
  {
    var nodes := Nodes(events);
    var g := new GraphBuilder();
    for i := 0 to |events|
      invariant fresh(g) && g.Valid() && g.stated == StatedByAll(events[..i], nodes)
    {
      assert events[..i + 1][..i] == events[..i];
      g.AddEvent(events[i], nodes);
    }
    assert events[..|events|] == events;
    edges, findings := g.edges, g.findings;
  }

  // ---- analyze() ----

  datatype Claim = Claim(source: Id, target: Id, causalOnly: bool, maxDepth: int)

  datatype Judgement = Judgement(claim: Claim, supported: bool, pathCount: nat, paths: seq<seq<Edge>>)

  ghost predicate Supported(edges: seq<Edge>, c: Claim) {
    Reachable(edges, c.causalOnly, c.source, c.target, c.maxDepth)
  }

  ghost function Unsupported(edges: seq<Edge>, claims: seq<Claim>): (r: seq<Finding>) {
    if claims == [] then []
    else
      var c := claims[|claims| - 1];
      Unsupported(edges, claims[..|claims| - 1]) + if Supported(edges, c) then [] else [CausalClaimUnsupported(c)]
  }

  /** The paths found for a claim: permitted walks within its depth, shortest first, the first no
      longer than any such walk there is, and as many as the graph's edges into the target make. */
  ghost predicate PathsFor(edges: seq<Edge>, c: Claim, all: seq<seq<Edge>>) {
    && OutSound(edges, c.causalOnly, c.source, c.target, c.maxDepth, all)
    && (forall i, k :: 0 <= i < k < |all| ==> |all[i]| <= |all[k]|)
    && (forall p :: Walk(edges, c.causalOnly, c.source, c.target, p) && |p| <= c.maxDepth ==>
          all != [] && |all[0]| <= |p|)
    && CountedByEnd(edges, c.causalOnly, c.source, c.target, c.maxDepth, all)
  }

  /** Of all the paths found the first twenty are shown. */
  method Judge(edges: seq<Edge>, c: Claim) returns (j: Judgement, ghost all: seq<seq<Edge>>)
    ensures j.claim == c && (j.supported <==> Supported(edges, c))
    ensures PathsFor(edges, c, all)
    ensures j.pathCount == |all| && j.paths == if |all| <= 20 then all else all[..20]
  {
    hide Walk;
    var ps := Paths(edges, c.source, c.target, c.causalOnly, c.maxDepth);
    all := ps;
    j := Judgement(c, ps != [], |ps|, if |ps| <= 20 then ps else ps[..20]);
  }

  /** Every claim is judged supported exactly when a permitted walk within its depth exists, and
      every other claim is reported. */
  method Analyze(events: seq<Event>, claims: seq<Claim>) returns (judgements: seq<Judgement>, findings: seq<Finding>)
    ensures |judgements| == |claims|
    ensures forall i :: 0 <= i < |claims| ==>
      judgements[i].claim == claims[i] && (judgements[i].supported <==> Supported(GraphEdges(events), claims[i]))
    ensures findings == Refused(StatedByAll(events, Nodes(events))) + Unsupported(GraphEdges(events), claims)
  {
    hide Supported, GraphEdges, Refused, StatedByAll, Walk, PathsFor;
    var edges, problems := Build(events);
    judgements, findings := [], problems;
    for i := 0 to |claims|
      invariant |judgements| == i && findings == problems + Unsupported(edges, claims[..i])
      invariant forall j :: 0 <= j < i ==>
        judgements[j].claim == claims[j] && (judgements[j].supported <==> Supported(edges, claims[j]))
    {
      assert claims[..i + 1][..i] == claims[..i];
      var j, _ := Judge(edges, claims[i]);
      judgements := judgements + [j];
      if !j.supported { findings := findings + [CausalClaimUnsupported(claims[i])]; }
    }
    assert claims[..|claims|] == claims;
  }

  // ---- Correlation is not causation ----

  function Uncorrelated(events: seq<Event>): (r: seq<Event>) {
    if events == [] then []
    else Uncorrelated(events[..|events| - 1]) + [events[|events| - 1].(correlations := [])]
  }

  /** The graph's edges that a causal-only search may follow, in order. */
  function CausalEdges(xs: seq<Stated>): (r: seq<Edge>) {
    if xs == [] then []
    else
      var x := xs[|xs| - 1];
      CausalEdges(xs[..|xs| - 1]) + if Complete(x) && x.kind in CAUSAL then [AsEdge(x)] else []
  }

  lemma {:induction false} CausalEdgesAppend(xs: seq<Stated>, ys: seq<Stated>)
    ensures CausalEdges(xs + ys) == CausalEdges(xs) + CausalEdges(ys)
  {
    if ys == [] {
      assert xs + ys == xs;
    } else {
      CausalEdgesAppend(xs, ys[..|ys| - 1]);
      assert (xs + ys)[..|xs + ys| - 1] == xs + ys[..|ys| - 1];
    }
  }

  lemma {:induction false} CorrelationsNotCausal(cs: seq<Id>, id: Id, nodes: set<Id>)
    ensures CausalEdges(Correlations(cs, id, nodes)) == []
  {
    if cs != [] {
      CorrelationsNotCausal(cs[..|cs| - 1], id, nodes);
      var x := Stated(cs[|cs| - 1], id, "correlated_with", [cs[|cs| - 1], id], 0.3, "explicit_correlation");
      var before := Correlations(cs[..|cs| - 1], id, nodes);
      if cs[|cs| - 1] in nodes {
        assert (before + [x])[..|before|] == before && "correlated_with" !in CAUSAL;
      } else {
        assert before + [] == before;
      }
    }
  }

  lemma {:induction false} ReferencesWithoutCorrelations(e: Event, n: nat)
    requires n <= |REFERENCES|
    ensures References(e.(correlations := []), n) == References(e, n)
  {
    if n > 0 { ReferencesWithoutCorrelations(e, n - 1); }
  }

  lemma EventWithoutCorrelations(e: Event, nodes: set<Id>)
    ensures CausalEdges(StatedBy(e.(correlations := []), nodes)) == CausalEdges(StatedBy(e, nodes))
  {
    hide CausalEdges, References, Typed, Causes;
    var a := Parent(e) + Causes(e.causes, e.id);
    var c := Correlations(e.correlations, e.id, nodes);
    var z := References(e, |REFERENCES|) + Typed(e.typed, e.id);
    ReferencesWithoutCorrelations(e, |REFERENCES|);
    assert StatedBy(e, nodes) == a + (c + z);
    assert StatedBy(e.(correlations := []), nodes) == a + z;
    CausalEdgesAppend(a, c + z);
    CausalEdgesAppend(c, z);
    CausalEdgesAppend(a, z);
    CorrelationsNotCausal(e.correlations, e.id, nodes);
  }

  lemma {:induction false} EventsWithoutCorrelations(events: seq<Event>, nodes: set<Id>, others: set<Id>)
    ensures CausalEdges(StatedByAll(Uncorrelated(events), others)) == CausalEdges(StatedByAll(events, nodes))
  {
    if events != [] {
      var n, e := |events| - 1, events[|events| - 1];
      EventsWithoutCorrelations(events[..n], nodes, others);
      assert Uncorrelated(events)[..|Uncorrelated(events)| - 1] == Uncorrelated(events[..n]);
      CausalEdgesAppend(StatedByAll(events[..n], nodes), StatedBy(e, nodes));
      CausalEdgesAppend(StatedByAll(Uncorrelated(events[..n]), others), StatedBy(e.(correlations := []), others));
      EventWithoutCorrelations(e, nodes);
      assert StatedBy(e.(correlations := []), others) == StatedBy(e.(correlations := []), nodes);
    }
  }

  lemma {:induction false} CausalEdgesAreAccepted(xs: seq<Stated>, e: Edge)
    ensures e in Accepted(xs) && e.kind in CAUSAL <==> e in CausalEdges(xs)
  {
    if xs != [] { CausalEdgesAreAccepted(xs[..|xs| - 1], e); }
  }

  lemma WalksTransfer(a: seq<Edge>, b: seq<Edge>, s: Id, t: Id, bound: int)
    requires forall e :: e in a && e.kind in CAUSAL ==> e in b
    requires Reachable(a, true, s, t, bound)
    ensures Reachable(b, true, s, t, bound)
  {
    var p :| Walk(a, true, s, t, p) && |p| <= bound;
    assert Walk(b, true, s, t, p);
  }

  /** Erasing every correlation id changes no causal verdict. */
  lemma CorrelationNeverSupports(events: seq<Event>, s: Id, t: Id, bound: int)
    ensures Reachable(GraphEdges(events), true, s, t, bound) <==>
            Reachable(GraphEdges(Uncorrelated(events)), true, s, t, bound)
  {
    var x, y := StatedByAll(events, Nodes(events)), StatedByAll(Uncorrelated(events), Nodes(Uncorrelated(events)));
    EventsWithoutCorrelations(events, Nodes(events), Nodes(Uncorrelated(events)));
    forall e ensures e in Accepted(x) && e.kind in CAUSAL <==> e in Accepted(y) && e.kind in CAUSAL {
      CausalEdgesAreAccepted(x, e);
      CausalEdgesAreAccepted(y, e);
    }
    if Reachable(GraphEdges(events), true, s, t, bound) {
      WalksTransfer(GraphEdges(events), GraphEdges(Uncorrelated(events)), s, t, bound);
    }
    if Reachable(GraphEdges(Uncorrelated(events)), true, s, t, bound) {
      WalksTransfer(GraphEdges(Uncorrelated(events)), GraphEdges(events), s, t, bound);
    }
  }
}
