/** From events to an incident report: what each seed caused, by causal edges only. */
module AgenticIncident {
  import opened AgenticGraph

  datatype Event = Event(
    id: Node, parent: Node, causes: seq<Node>, correlations: seq<Node>, kind: string, actor: string, tool: string)

  predicate Truthy(n: Node) { n != NoId && n != Id("") }

  // ---- build() ----

  function AddEdge(g: Graph, x: Node, y: Node): (r: Graph)
    ensures forall n :: Next(r, n) == if n == x then Next(g, n) + [y] else Next(g, n)
  {
    g[x := Next(g, x) + [y]]
  }

  function AddCauses(g: Graph, cs: seq<Node>, y: Node): (r: Graph) {
    if cs == [] then g else AddEdge(AddCauses(g, cs[..|cs| - 1], y), cs[|cs| - 1], y)
  }

  function AddEvent(g: Graph, e: Event): (r: Graph) {
    AddCauses(if Truthy(e.parent) then AddEdge(g, e.parent, e.id) else g, e.causes, e.id)
  }

  function CausalGraphOf(events: seq<Event>): (r: Graph) {
    if events == [] then map[] else AddEvent(CausalGraphOf(events[..|events| - 1]), events[|events| - 1])
  }

  /** Events by id; of two with one id, the later. */
  function NodesOf(events: seq<Event>): (r: map<Node, Event>) {
    if events == [] then map[]
    else
      var e := events[|events| - 1];
      if Truthy(e.id) then NodesOf(events[..|events| - 1])[e.id := e] else NodesOf(events[..|events| - 1])
  }

  method Build(events: seq<Event>) returns (nodes: map<Node, Event>, causal: Graph)
    ensures nodes == NodesOf(events) && causal == CausalGraphOf(events)
  {
    hide AddEdge;
    nodes, causal := map[], map[];
    for i := 0 to |events|
      invariant nodes == NodesOf(events[..i]) && causal == CausalGraphOf(events[..i])
    {
      var e := events[i];
      assert events[..i + 1][..i] == events[..i];
      if Truthy(e.id) { nodes := nodes[e.id := e]; }
      if Truthy(e.parent) { causal := AddEdge(causal, e.parent, e.id); }
      ghost var base := causal;
      for j := 0 to |e.causes|
        invariant causal == AddCauses(base, e.causes[..j], e.id)
      {
        assert e.causes[..j + 1][..j] == e.causes[..j];
        causal := AddEdge(causal, e.causes[j], e.id);
      }
      assert e.causes[..|e.causes|] == e.causes;
    }
    assert events[..|events|] == events;
  }

  /** An event names `x` as its parent or as a cause. */
  ghost predicate Link(events: seq<Event>, x: Node, y: Node) {
    exists e :: e in events && e.id == y && Names(e, x)
  }

  predicate Names(e: Event, x: Node) { (Truthy(e.parent) && e.parent == x) || x in e.causes }

  lemma AddedEdge(g: Graph, c: Node, y: Node, x: Node, z: Node)
    ensures z in Next(AddEdge(g, c, y), x) <==> z in Next(g, x) || (z == y && x == c)
  {
    hide Next;
    assert Next(AddEdge(g, c, y), x) == if x == c then Next(g, x) + [y] else Next(g, x);
  }

  lemma {:induction false} CausesAdded(g: Graph, cs: seq<Node>, y: Node, x: Node, z: Node)
    ensures z in Next(AddCauses(g, cs, y), x) <==> z in Next(g, x) || (z == y && x in cs)
  {
    hide Next, AddEdge;
    if cs != [] {
      var front, last := cs[..|cs| - 1], cs[|cs| - 1];
      CausesAdded(g, front, y, x, z);
      AddedEdge(AddCauses(g, front, y), last, y, x, z);
      assert x in cs <==> x in front || x == last by { assert cs == front + [last]; }
    }
  }

  lemma EventAdded(g: Graph, e: Event, x: Node, z: Node)
    ensures z in Next(AddEvent(g, e), x) <==> z in Next(g, x) || (e.id == z && Names(e, x))
  {
    hide Next, AddEdge, AddCauses;
    if Truthy(e.parent) {
      AddedEdge(g, e.parent, e.id, x, z);
      CausesAdded(AddEdge(g, e.parent, e.id), e.causes, e.id, x, z);
    } else {
      CausesAdded(g, e.causes, e.id, x, z);
    }
  }

  /** The causal graph has an edge exactly where an event names a parent or a cause; correlation
      ids make none. */
  lemma {:induction false} EdgesAreLinks(events: seq<Event>, x: Node, y: Node)
    ensures y in Next(CausalGraphOf(events), x) <==> Link(events, x, y)
  {
    hide Next, AddEvent, Names;
    if events != [] {
      var before, e := events[..|events| - 1], events[|events| - 1];
      EdgesAreLinks(before, x, y);
      EventAdded(CausalGraphOf(before), e, x, y);
      assert events == before + [e];
      LinkSplit(before, e, x, y);
    } else {
      NoEdges(x);
    }
  }

  lemma NoEdges(x: Node)
    ensures Next(map[], x) == []
  {
  }

  lemma LinkSplit(before: seq<Event>, e: Event, x: Node, y: Node)
    ensures Link(before + [e], x, y) <==> Link(before, x, y) || (e.id == y && Names(e, x))
  {
    if Link(before, x, y) {
      var f :| f in before && f.id == y && Names(f, x);
      assert f in before + [e];
    }
    if e.id == y && Names(e, x) { assert e in before + [e]; }
  }

  /** So events that agree on their ids, parents and causes have the same edges, whatever else
      they say, correlation ids included. */
  lemma SameLinksSameEdges(events: seq<Event>, others: seq<Event>, x: Node, y: Node)
    requires |events| == |others|
    requires forall i :: 0 <= i < |events| ==>
      events[i].id == others[i].id && events[i].parent == others[i].parent && events[i].causes == others[i].causes
    ensures y in Next(CausalGraphOf(events), x) <==> y in Next(CausalGraphOf(others), x)
  {
    hide Next, CausalGraphOf, Link;
    EdgesAreLinks(events, x, y);
    EdgesAreLinks(others, x, y);
    LinksCarryOver(events, others, x, y);
    LinksCarryOver(others, events, x, y);
  }

  lemma LinksCarryOver(events: seq<Event>, others: seq<Event>, x: Node, y: Node)
    requires |events| == |others|
    requires forall i :: 0 <= i < |events| ==>
      events[i].id == others[i].id && events[i].parent == others[i].parent && events[i].causes == others[i].causes
    ensures Link(events, x, y) ==> Link(others, x, y)
  {
    if Link(events, x, y) {
      var e :| e in events && e.id == y && Names(e, x);
      var i :| 0 <= i < |events| && events[i] == e;
      assert others[i].id == y && Names(others[i], x);
    }
  }

  // ---- analyze() ----

  datatype Traced = Traced(seed: Node, consequence: Node, path: seq<Node>, causal: bool)

  /** A report line: the first shortest causal path cut after its last null id, and flagged causal
      exactly when it holds none. */
  ghost predicate Explains(g: Graph, t: Traced) {
    Descendant(g, t.seed, t.consequence) &&
    exists full ::
      FirstShortest(g, t.seed, t.consequence, full) && CutAtNull(full, t.path) && (t.causal <==> NoId !in full)
  }

  /** What that means for a reader: a line flagged causal shows a shortest causal path, any other
      line starts behind an event without an id, and the path of a seed that is its own consequence
      is that seed alone. */
  lemma ExplainsMeans(g: Graph, t: Traced)
    requires Explains(g, t)
    ensures t.causal ==> Path(g, t.seed, t.consequence, t.path)
    ensures t.causal ==> forall p :: Path(g, t.seed, t.consequence, p) ==> |t.path| <= |p|
    ensures !t.causal && t.consequence != NoId ==> t.path != [] && t.path[0] in Next(g, NoId)
    ensures t.seed == t.consequence && t.seed != NoId ==> t.path == [t.seed] && t.causal
    ensures t.seed != t.consequence && t.causal ==> |t.path| >= 2
  {
    hide First;
    var full :| FirstShortest(g, t.seed, t.consequence, full) && CutAtNull(full, t.path) &&
      (t.causal <==> NoId !in full);
    if t.seed == t.consequence { assert Path(g, t.seed, t.seed, [t.seed]); }
    if t.causal {
      CutOfNothing(full, t.path);
    } else if t.consequence != NoId {
      CutFollowsNull(g, t.seed, t.consequence, full, t.path);
    }
  }

  /** It does happen: two events that cause each other. */
  lemma SeedOnACycle(t: Traced)
    requires t.seed == Id("s") == t.consequence
    ensures var g := map[Id("s") := [Id("c")], Id("c") := [Id("s")]];
      Descendant(g, Id("s"), Id("s")) && (Explains(g, t) ==> t.path == [Id("s")] && t.causal)
  {
    hide Explains;
    var g := map[Id("s") := [Id("c")], Id("c") := [Id("s")]];
    assert Path(g, Id("s"), Id("s"), [Id("s"), Id("c"), Id("s")]);
    if Explains(g, t) { ExplainsMeans(g, t); }
  }

  /** The graph leaves no choice: whoever knows the first shortest path knows the line. */
  lemma LineIsDetermined(g: Graph, t: Traced, full: seq<Node>)
    requires Explains(g, t) && FirstShortest(g, t.seed, t.consequence, full)
    ensures CutAtNull(full, t.path) && (t.causal <==> NoId !in full)
    ensures forall path :: CutAtNull(full, path) ==> path == t.path
  {
    hide First, CutAtNull, Path, Descendant;
    var other :| FirstShortest(g, t.seed, t.consequence, other) && CutAtNull(other, t.path) &&
      (t.causal <==> NoId !in other);
    FirstShortestUnique(g, t.seed, t.consequence, full, other);
    forall path | CutAtNull(full, path) ensures path == t.path { OneCut(full, path, t.path); }
  }

  lemma OneCut(full: seq<Node>, a: seq<Node>, b: seq<Node>)
    requires CutAtNull(full, a) && CutAtNull(full, b)
    ensures a == b
  {
    var i :| 0 <= i <= |full| && a == full[i..] && (i > 0 ==> full[i - 1] == NoId);
    var j :| 0 <= j <= |full| && b == full[j..] && (j > 0 ==> full[j - 1] == NoId);
    if i < j { assert false; }
    if j < i { assert false; }
  }

  /** Two events, the first of them without an id, have the graph of NullIdCutsThePath. */
  lemma EventsThatCut(a: Event, b: Event)
    requires a.id == NoId && a.parent == Id("s") && a.causes == []
    requires b.id == Id("c") && b.parent == NoId && b.causes == [NoId]
    ensures CausalGraphOf([a, b]) == map[Id("s") := [NoId], NoId := [Id("c")]]
  {
    var none: Graph := map[];
    var g := map[Id("s") := [NoId]];
    EventStep([], a);
    EventStep([a], b);
    assert [] + [a] == [a] && [a] + [b] == [a, b];
    assert Next(none, Id("s")) + [NoId] == [NoId];
    assert AddEvent(none, a) == AddEdge(none, Id("s"), NoId) == g;
    assert AddCauses(g, [NoId], Id("c")) == AddEdge(AddCauses(g, [NoId][..0], Id("c")), NoId, Id("c"));
    assert Next(g, NoId) + [Id("c")] == [Id("c")];
    assert AddEvent(g, b) == AddEdge(g, NoId, Id("c"));
  }

  lemma EventStep(events: seq<Event>, e: Event)
    ensures CausalGraphOf(events + [e]) == AddEvent(CausalGraphOf(events), e)
  {
    hide AddEvent;
    assert (events + [e])[..|events|] == events;
  }

  lemma CutOfNothing(full: seq<Node>, path: seq<Node>)
    requires CutAtNull(full, path) && NoId !in full
    ensures path == full
  {
    var k :| 0 <= k <= |full| && path == full[k..] && (k > 0 ==> full[k - 1] == NoId);
    assert forall i :: 0 <= i < |full| ==> full[i] != NoId;
    assert full[0..] == full;
  }

  ghost predicate Affected(g: Graph, seeds: seq<Node>, x: Node) {
    exists s :: s in seeds && Descendant(g, s, x)
  }

  predicate IsConsequence(nodes: map<Node, Event>, x: Node) { x in nodes && nodes[x].kind == "consequence" }

  // ---- How many lines there are for whom ----

  /** Seed and consequence of every line. */
  ghost function Pairs(lines: seq<Traced>): (r: seq<(Node, Node)>)
    ensures |r| == |lines|
  {
    seq(|lines|, i requires 0 <= i < |lines| => (lines[i].seed, lines[i].consequence))
  }

  ghost function LinesFor(lines: seq<Traced>, s: Node, x: Node): (n: nat) { multiset(Pairs(lines))[(s, x)] }

  lemma LinesAppend(a: seq<Traced>, b: seq<Traced>, s: Node, x: Node)
    ensures LinesFor(a + b, s, x) == LinesFor(a, s, x) + LinesFor(b, s, x)
  {
    assert Pairs(a + b) == Pairs(a) + Pairs(b);
  }

  lemma OneLine(l: Traced, s: Node, x: Node)
    ensures LinesFor([l], s, x) == if s == l.seed && x == l.consequence then 1 else 0
  {
    assert Pairs([l]) == [(l.seed, l.consequence)];
  }

  lemma NoLine(s: Node, x: Node)
    ensures LinesFor([], s, x) == 0
  {
  }

  lemma CountedIsThere(lines: seq<Traced>, s: Node, x: Node)
    ensures LinesFor(lines, s, x) > 0 <==>
      exists i :: 0 <= i < |lines| && lines[i].seed == s && lines[i].consequence == x
  {
    if LinesFor(lines, s, x) > 0 {
      assert (s, x) in Pairs(lines);
      var i :| 0 <= i < |lines| && Pairs(lines)[i] == (s, x);
    }
    if i :| 0 <= i < |lines| && lines[i].seed == s && lines[i].consequence == x {
      assert Pairs(lines)[i] == (s, x);
      assert (s, x) in multiset(Pairs(lines));
    }
  }

  /** Follows one seed: one report line for each of its consequences. */
  method TraceSeed(g: Graph, nodes: map<Node, Event>, seed: Node, ds: set<Node>) returns (lines: seq<Traced>)
    requires forall n :: n in nodes ==> Truthy(n)
    requires forall x :: x in ds <==> Descendant(g, seed, x)
    ensures forall i :: 0 <= i < |lines| ==> Explains(g, lines[i])
    ensures forall s, x :: LinesFor(lines, s, x) == if s == seed && x in ds && IsConsequence(nodes, x) then 1 else 0
  {
    hide Path, Descendant, First, CutAtNull, LinesFor;
    lines := [];
    forall s, x { NoLine(s, x); }
    var rest := set x | x in ds && IsConsequence(nodes, x);
    while rest != {}
      invariant rest <= ds && forall x :: x in rest ==> IsConsequence(nodes, x)
      invariant forall i :: 0 <= i < |lines| ==> Explains(g, lines[i])
      invariant forall s, x ::
        LinesFor(lines, s, x) == if s == seed && x in ds && IsConsequence(nodes, x) && x !in rest then 1 else 0
      decreases rest
    {
      var x :| x in rest;
      var path, causal, full := TracePath(g, seed, x);
      var line := Traced(seed, x, path, causal);
      assert Explains(g, line);
      forall s, y
        ensures LinesFor(lines + [line], s, y) == LinesFor(lines, s, y) + if s == seed && y == x then 1 else 0
      {
        LinesAppend(lines, [line], s, y);
        OneLine(line, s, y);
      }
      lines := lines + [line];
      rest := rest - {x};
    }
  }

  method Analyze(events: seq<Event>, seeds: seq<Node>)
    returns (lines: seq<Traced>, agents: set<string>, tools: set<string>, consequences: set<Node>)
    ensures forall i :: 0 <= i < |lines| ==> Explains(CausalGraphOf(events), lines[i])
    ensures forall s, x ::
      LinesFor(lines, s, x) ==
      if Descendant(CausalGraphOf(events), s, x) && IsConsequence(NodesOf(events), x) then multiset(seeds)[s] else 0
    ensures forall x :: x in consequences <==>
      x in NodesOf(events) && NodesOf(events)[x].kind == "consequence" && Affected(CausalGraphOf(events), seeds, x)
    ensures forall a :: a in agents <==>
      a != "" && exists x ::
        x in NodesOf(events) && NodesOf(events)[x].actor == a && Affected(CausalGraphOf(events), seeds, x)
    ensures forall t :: t in tools <==>
      t != "" && exists x ::
        x in NodesOf(events) && NodesOf(events)[x].kind == "tool_call" && NodesOf(events)[x].tool == t &&
        Affected(CausalGraphOf(events), seeds, x)
  {
    hide Path, Descendant, CausalGraphOf, NodesOf, Explains, LinesFor;
    var nodes: map<Node, Event>;
    var g: Graph;
    nodes, g := Build(events);
    NodesTruthy(events);
    lines := [];
    forall s, x { NoLine(s, x); }
    var affected: set<Node> := {};
    for k := 0 to |seeds|
      invariant forall i :: 0 <= i < |lines| ==> Explains(g, lines[i])
      invariant forall s, x ::
        LinesFor(lines, s, x) ==
        if Descendant(g, s, x) && IsConsequence(nodes, x) then multiset(seeds[..k])[s] else 0
      invariant forall x :: x in affected <==> Affected(g, seeds[..k], x)
    {
      var seed := seeds[k];
      var ds := Descendants(g, seed);
      var more := TraceSeed(g, nodes, seed, ds);
      assert seeds[..k + 1] == seeds[..k] + [seed];
      AffectedStep(g, seeds[..k], seed, ds, affected);
      forall s, x { LinesAppend(lines, more, s, x); }
      affected := affected + ds;
      lines := lines + more;
    }
    assert seeds[..|seeds|] == seeds;
    consequences := set x | x in affected && IsConsequence(nodes, x);
    agents := set x | x in affected && x in nodes && nodes[x].actor != "" :: nodes[x].actor;
    tools := set x | x in affected && x in nodes && nodes[x].kind == "tool_call" && nodes[x].tool != "" ::
      nodes[x].tool;
  }

  lemma AffectedStep(g: Graph, seeds: seq<Node>, seed: Node, ds: set<Node>, affected: set<Node>)
    requires forall x :: x in ds <==> Descendant(g, seed, x)
    requires forall x :: x in affected <==> Affected(g, seeds, x)
    ensures forall x :: x in affected + ds <==> Affected(g, seeds + [seed], x)
  {
    hide Descendant;
    forall x ensures x in affected + ds <==> Affected(g, seeds + [seed], x) {
      if x in affected {
        var s :| s in seeds && Descendant(g, s, x);
        assert s in seeds + [seed];
      }
      if x in ds { assert seed in seeds + [seed]; }
    }
  }

  /** The event at an id is the last one with that id. */
  lemma {:induction false} NodesMean(events: seq<Event>, n: Node) returns (i: nat)
    requires n in NodesOf(events)
    ensures i < |events| && NodesOf(events)[n] == events[i] && events[i].id == n && n != NoId && n != Id("")
    ensures forall j :: i < j < |events| ==> events[j].id != n
  {
    var k := |events| - 1;
    if events[k].id == n && Truthy(n) { i := k; } else { i := NodesMean(events[..k], n); }
  }

  lemma {:induction false} EveryIdIsNode(events: seq<Event>, e: Event)
    requires e in events && e.id != NoId && e.id != Id("")
    ensures e.id in NodesOf(events)
  {
    var k := |events| - 1;
    assert events == events[..k] + [events[k]];
    if e != events[k] { EveryIdIsNode(events[..k], e); }
  }

  lemma {:induction false} NodesTruthy(events: seq<Event>)
    ensures forall n :: n in NodesOf(events) ==> Truthy(n) && NodesOf(events)[n].id == n
  {
    if events != [] { NodesTruthy(events[..|events| - 1]); }
  }
}
