/** The typed causal graph: its construction from events and the bounded path search. */
module CausalPaths {

  /** An identifier; the empty string is what an absent or null id amounts to. */
  type Id = string

  datatype Edge = Edge(source: Id, target: Id, kind: string, evidence: seq<Id>, confidence: real, origin: string)

  const CAUSAL: set<string> := {
    "caused_by", "derived_from", "contains_content_from", "authorized_by", "delegated_by",
    "scheduled_by", "retrieved_from", "transformed_from", "routed_by", "executed_by"}

  const EDGE_TYPES: set<string> := CAUSAL + {"correlated_with", "contradicts"}

  predicate Permitted(causalOnly: bool, e: Edge) { causalOnly ==> e.kind in CAUSAL }

  // ---- Walks ----

  /** A contiguous run of permitted edges of the graph, from `s` to `t`. */
  ghost predicate Walk(edges: seq<Edge>, causalOnly: bool, s: Id, t: Id, p: seq<Edge>) {
    && p != [] && p[0].source == s && p[|p| - 1].target == t
    && (forall i :: 0 <= i < |p| ==> p[i] in edges && Permitted(causalOnly, p[i]))
    && (forall i :: 0 <= i < |p| - 1 ==> p[i].target == p[i + 1].source)
  }

  ghost predicate Reachable(edges: seq<Edge>, causalOnly: bool, s: Id, t: Id, bound: int) {
    exists p :: Walk(edges, causalOnly, s, t, p) && |p| <= bound
  }

  /** A possibly empty walk from `s` to `n` none of whose edges enters `t`. */
  ghost predicate Approach(edges: seq<Edge>, causalOnly: bool, s: Id, t: Id, n: Id, p: seq<Edge>) {
    (if p == [] then n == s else Walk(edges, causalOnly, s, n, p)) && forall i :: 0 <= i < |p| ==> p[i].target != t
  }

  /** The fixed inputs of one search. */
  datatype Search = Search(edges: seq<Edge>, causalOnly: bool, source: Id, target: Id, bound: int)

  // ---- paths() ----

  predicate Leaves(causalOnly: bool, n: Id, e: Edge) { e.source == n && Permitted(causalOnly, e) }

  function Out(edges: seq<Edge>, causalOnly: bool, n: Id): (r: seq<Edge>)
    ensures forall e :: e in r <==> e in edges && Leaves(causalOnly, n, e)
  {
    if edges == [] then []
    else
      var k := |edges| - 1;
      assert edges == edges[..k] + [edges[k]];
      Out(edges[..k], causalOnly, n) + if Leaves(causalOnly, n, edges[k]) then [edges[k]] else []
  }

  type Adjacency = map<Id, seq<Edge>>

  function Successors(adj: Adjacency, n: Id): (r: seq<Edge>) { if n in adj then adj[n] else [] }

  method BuildAdjacency(edges: seq<Edge>, causalOnly: bool) returns (adj: Adjacency)
    ensures forall n :: Successors(adj, n) == Out(edges, causalOnly, n)
  {
    hide Permitted, Out;
    adj := map[];
    NoEdges(causalOnly);
    for i := 0 to |edges|
      invariant forall n :: Successors(adj, n) == Out(edges[..i], causalOnly, n)
    {
      OutStep(edges, causalOnly, i);
      var e := edges[i];
      if Permitted(causalOnly, e) { adj := adj[e.source := Successors(adj, e.source) + [e]]; }
    }
    assert edges[..|edges|] == edges;
  }

  lemma NoEdges(causalOnly: bool)
    ensures forall n :: Out([], causalOnly, n) == []
  {
  }

  lemma OutStep(edges: seq<Edge>, causalOnly: bool, i: nat)
    requires i < |edges|
    ensures forall n ::
      Out(edges[..i + 1], causalOnly, n) ==
      Out(edges[..i], causalOnly, n) + if Leaves(causalOnly, n, edges[i]) then [edges[i]] else []
  {
    assert edges[..i + 1][..i] == edges[..i];
  }

  datatype Prefix = Prefix(node: Id, path: seq<Edge>)

  /** What the search remembers having queued: a node at a depth. */
  type Key = (Id, int)

  function KeyOf(x: Prefix): (k: Key) { (x.node, |x.path|) }

  ghost predicate Queued(q: seq<Prefix>, k: Key) { exists i :: 0 <= i < |q| && KeyOf(q[i]) == k }

  ghost predicate HasLength(out: seq<seq<Edge>>, d: int) { exists i :: 0 <= i < |out| && |out[i]| == d }

  /** Following `e` from depth `d` has been accounted for. */
  ghost predicate Followed(t: Id, seen: set<Key>, out: seq<seq<Edge>>, d: int, e: Edge) {
    if e.target == t then HasLength(out, d + 1) else (e.target, d + 1) in seen
  }

  ghost predicate Expanded(
      edges: seq<Edge>, causalOnly: bool, t: Id, bound: int, seen: set<Key>, out: seq<seq<Edge>>, k: Key)
  {
    k.1 < bound ==> forall e :: e in Out(edges, causalOnly, k.0) ==> Followed(t, seen, out, k.1, e)
  }

  /** A returned path: a walk to the target that does not pass through it, within the bound. */
  ghost predicate Hit(edges: seq<Edge>, causalOnly: bool, s: Id, t: Id, bound: int, p: seq<Edge>) {
    && Walk(edges, causalOnly, s, t, p) && |p| <= bound
    && forall i :: 0 <= i < |p| - 1 ==> p[i].target != t
  }

  ghost predicate QueueOrdered(q: seq<Prefix>, level: int) {
    && (forall i :: 0 <= i < |q| ==> level <= |q[i].path| <= level + 1)
    && (forall i, j :: 0 <= i < j < |q| ==> |q[i].path| <= |q[j].path|)
  }

  ghost predicate OutOrdered(out: seq<seq<Edge>>, level: int) {
    && (forall i :: 0 <= i < |out| ==> |out[i]| <= level + 1)
    && (forall i, j :: 0 <= i < j < |out| ==> |out[i]| <= |out[j]|)
  }

  ghost predicate QueueSound(edges: seq<Edge>, causalOnly: bool, s: Id, t: Id, q: seq<Prefix>) {
    forall i :: 0 <= i < |q| ==> Approach(edges, causalOnly, s, t, q[i].node, q[i].path)
  }

  ghost predicate OutSound(edges: seq<Edge>, causalOnly: bool, s: Id, t: Id, bound: int, out: seq<seq<Edge>>) {
    forall i :: 0 <= i < |out| ==> Hit(edges, causalOnly, s, t, bound, out[i])
  }

  ghost predicate Covered(
      edges: seq<Edge>, causalOnly: bool, t: Id, bound: int, seen: set<Key>, q: seq<Prefix>, out: seq<seq<Edge>>)
  {
    forall k :: k in seen ==> Queued(q, k) || Expanded(edges, causalOnly, t, bound, seen, out, k)
  }

  /** All the keys a search can ever see. */
  ghost function Universe(edges: seq<Edge>, s: Id, bound: int): (u: set<Key>) {
    {(s, 0)} + set e, d | e in edges && 0 < d <= bound :: (e.target, d)
  }

  // ---- How many paths end where ----

  /** Where a path ends: its depth before the last edge, and that edge. */
  function End(p: seq<Edge>): (k: (int, Edge))
    requires p != []
  {
    (|p| - 1, p[|p| - 1])
  }

  function Ends(out: seq<seq<Edge>>): (r: seq<(int, Edge)>)
    requires forall i :: 0 <= i < |out| ==> out[i] != []
    ensures |r| == |out| && forall i :: 0 <= i < |out| ==> r[i] == End(out[i])
  {
    seq(|out|, i requires 0 <= i < |out| => End(out[i]))
  }

  /** The edges that leave `n`, with how often the graph holds them. */
  lemma {:induction false} OutCounts(edges: seq<Edge>, causalOnly: bool, n: Id, e: Edge)
    ensures multiset(Out(edges, causalOnly, n))[e] == if Leaves(causalOnly, n, e) then multiset(edges)[e] else 0
  {
    hide Leaves;
    if edges != [] {
      var k := |edges| - 1;
      OutCounts(edges[..k], causalOnly, n, e);
      assert edges == edges[..k] + [edges[k]];
    }
  }

  /** How many of the paths found so far should end with `e` from depth `d`, when the nodes in
      `closed` have been expanded at their depths and, of the node `cur`, its first edges `some`. */
  ghost function Expected(c: Search, closed: set<Key>, cur: Key, some: seq<Edge>, d: int, e: Edge): (n: nat) {
    if e.target != c.target || d >= c.bound then 0
    else if (e.source, d) == cur then multiset(some)[e]
    else if (e.source, d) in closed then multiset(Out(c.edges, c.causalOnly, e.source))[e]
    else 0
  }

  ghost predicate Tallied(c: Search, out: seq<seq<Edge>>, closed: set<Key>, cur: Key, some: seq<Edge>) {
    && (forall i :: 0 <= i < |out| ==> out[i] != [])
    && forall d, e :: multiset(Ends(out))[(d, e)] == Expected(c, closed, cur, some, d, e)
  }

  /** Each key seen waits once in the queue or is closed, or is the one being expanded. */
  ghost predicate Ledger(seen: set<Key>, q: seq<Prefix>, closed: set<Key>, cur: set<Key>) {
    && (forall i, j :: 0 <= i < j < |q| ==> KeyOf(q[i]) != KeyOf(q[j]))
    && (forall i :: 0 <= i < |q| ==> KeyOf(q[i]) in seen && KeyOf(q[i]) !in closed + cur)
    && closed <= seen && cur <= seen && closed !! cur
    && (forall k :: k in seen ==> k in closed + cur || Queued(q, k))
  }

  /** Every key seen is that of an approach. */
  ghost predicate SeenSound(c: Search, seen: set<Key>) {
    forall k :: k in seen ==> exists p :: Approach(c.edges, c.causalOnly, c.source, c.target, k.0, p) && |p| == k.1
  }

  lemma StartLedger(c: Search)
    ensures Ledger({(c.source, 0)}, [Prefix(c.source, [])], {}, {}) && SeenSound(c, {(c.source, 0)})
    ensures forall cur :: Tallied(c, [], {}, cur, [])
  {
    assert KeyOf([Prefix(c.source, [])][0]) == (c.source, 0);
    assert Approach(c.edges, c.causalOnly, c.source, c.target, c.source, []);
  }

  lemma PopLedger(c: Search, seen: set<Key>, q: seq<Prefix>, out: seq<seq<Edge>>, closed: set<Key>)
    requires q != [] && Ledger(seen, q, closed, {}) && forall cur :: cur !in closed ==> Tallied(c, out, closed, cur, [])
    ensures Ledger(seen, q[1..], closed, {KeyOf(q[0])}) && Tallied(c, out, closed, KeyOf(q[0]), [])
  {
    hide Tallied;
    forall k | k in seen && Queued(q, k) && k != KeyOf(q[0]) ensures Queued(q[1..], k) {
      var i :| 0 <= i < |q| && KeyOf(q[i]) == k;
      assert KeyOf(q[1..][i - 1]) == k;
    }
  }

  /** One edge: a path more that ends with it, or perhaps a key more in the queue. */
  lemma FollowLedger(
      c: Search, seen: set<Key>, q: seq<Prefix>, out: seq<seq<Edge>>, closed: set<Key>, x: Prefix, i: nat, e: Edge)
    requires Ledger(seen, q, closed, {KeyOf(x)}) && |x.path| < c.bound && SeenSound(c, seen)
    requires Approach(c.edges, c.causalOnly, c.source, c.target, x.node, x.path)
    requires i < |Out(c.edges, c.causalOnly, x.node)| && e == Out(c.edges, c.causalOnly, x.node)[i]
    requires Tallied(c, out, closed, KeyOf(x), Out(c.edges, c.causalOnly, x.node)[..i])
    ensures Ledger(FollowSeen(c.target, seen, x.path, e), FollowQueue(c.target, seen, q, x.path, e), closed, {KeyOf(x)})
    ensures SeenSound(c, FollowSeen(c.target, seen, x.path, e))
    ensures Tallied(
              c, FollowOut(c.target, out, x.path, e), closed, KeyOf(x), Out(c.edges, c.causalOnly, x.node)[..i + 1])
  {
    LedgerGrows(c, seen, q, closed, x, e);
    ExtendApproach(c.edges, c.causalOnly, c.source, c.target, x.node, x.path, e);
    TallyGrows(c, out, closed, x, i, e);
  }

  lemma LedgerGrows(c: Search, seen: set<Key>, q: seq<Prefix>, closed: set<Key>, x: Prefix, e: Edge)
    requires Ledger(seen, q, closed, {KeyOf(x)})
    ensures Ledger(FollowSeen(c.target, seen, x.path, e), FollowQueue(c.target, seen, q, x.path, e), closed, {KeyOf(x)})
  {
    var seen', q' := FollowSeen(c.target, seen, x.path, e), FollowQueue(c.target, seen, q, x.path, e);
    forall k | k in seen' ensures k in closed + {KeyOf(x)} || Queued(q', k) {
      if k in seen {
        if Queued(q, k) {
          var i :| 0 <= i < |q| && KeyOf(q[i]) == k;
          assert KeyOf(q'[i]) == k;
        }
      } else {
        assert KeyOf(q'[|q|]) == k;
      }
    }
  }

  lemma TallyGrows(c: Search, out: seq<seq<Edge>>, closed: set<Key>, x: Prefix, i: nat, e: Edge)
    requires |x.path| < c.bound
    requires i < |Out(c.edges, c.causalOnly, x.node)| && e == Out(c.edges, c.causalOnly, x.node)[i]
    requires Tallied(c, out, closed, KeyOf(x), Out(c.edges, c.causalOnly, x.node)[..i])
    ensures Tallied(
              c, FollowOut(c.target, out, x.path, e), closed, KeyOf(x), Out(c.edges, c.causalOnly, x.node)[..i + 1])
  {
    hide Out, Tallied, FollowOut;
    var all := Out(c.edges, c.causalOnly, x.node);
    assert all[..i + 1] == all[..i] + [e];
    assert e.source == x.node by { assert e in all; }
    OneMore(c, out, closed, x, all[..i], e);
  }

  lemma OneMore(c: Search, out: seq<seq<Edge>>, closed: set<Key>, x: Prefix, some: seq<Edge>, e: Edge)
    requires |x.path| < c.bound && e.source == x.node && Tallied(c, out, closed, KeyOf(x), some)
    ensures Tallied(c, FollowOut(c.target, out, x.path, e), closed, KeyOf(x), some + [e])
  {
    hide Out, Ends;
    var p := x.path + [e];
    var out' := FollowOut(c.target, out, x.path, e);
    if e.target == c.target { EndsAppend(out, x.path, e); }
    forall d, f ensures multiset(Ends(out'))[(d, f)] == Expected(c, closed, KeyOf(x), some + [e], d, f) {
      assert multiset(Ends(out))[(d, f)] == Expected(c, closed, KeyOf(x), some, d, f);
      if e.target == c.target {
        assert multiset(Ends(out'))[(d, f)] == multiset(Ends(out))[(d, f)] + if (d, f) == (|x.path|, e) then 1 else 0;
      }
    }
  }

  lemma EndsAppend(out: seq<seq<Edge>>, path: seq<Edge>, e: Edge)
    requires forall i :: 0 <= i < |out| ==> out[i] != []
    ensures Ends(out + [path + [e]]) == Ends(out) + [(|path|, e)]
  {
  }

  /** All edges of the popped node followed, or its depth at the bound: it is closed. */
  lemma CloseLedger(
      c: Search, seen: set<Key>, q: seq<Prefix>, out: seq<seq<Edge>>, closed: set<Key>, x: Prefix, some: seq<Edge>)
    requires Ledger(seen, q, closed, {KeyOf(x)}) && Tallied(c, out, closed, KeyOf(x), some)
    requires |x.path| >= c.bound || some == Out(c.edges, c.causalOnly, x.node)
    ensures Ledger(seen, q, closed + {KeyOf(x)}, {})
    ensures forall cur :: cur !in closed + {KeyOf(x)} ==> Tallied(c, out, closed + {KeyOf(x)}, cur, [])
  {
    assert closed + {KeyOf(x)} + {} == closed + {KeyOf(x)};
  }

  lemma ExtendApproach(edges: seq<Edge>, causalOnly: bool, s: Id, t: Id, n: Id, p: seq<Edge>, e: Edge)
    requires Approach(edges, causalOnly, s, t, n, p) && e in Out(edges, causalOnly, n)
    ensures Walk(edges, causalOnly, s, e.target, p + [e])
    ensures e.target != t ==> Approach(edges, causalOnly, s, t, e.target, p + [e])
    ensures e.target == t ==> forall i :: 0 <= i < |p + [e]| - 1 ==> (p + [e])[i].target != t
  {
  }

  lemma HasLengthGrows(out: seq<seq<Edge>>, p: seq<Edge>, d: int)
    requires HasLength(out, d) || |p| == d
    ensures HasLength(out + [p], d)
  {
    if |p| == d {
      assert |(out + [p])[|out|]| == d;
    } else {
      var i :| 0 <= i < |out| && |out[i]| == d;
      assert |(out + [p])[i]| == d;
    }
  }

  /** One edge of the inner loop: what it adds to the output, the seen keys and the queue. */
  function FollowOut(t: Id, out: seq<seq<Edge>>, p: seq<Edge>, e: Edge): (r: seq<seq<Edge>>) {
    if e.target == t then out + [p + [e]] else out
  }

  function FollowSeen(t: Id, seen: set<Key>, p: seq<Edge>, e: Edge): (r: set<Key>) {
    if e.target == t then seen else seen + {(e.target, |p| + 1)}
  }

  function FollowQueue(t: Id, seen: set<Key>, q: seq<Prefix>, p: seq<Edge>, e: Edge): (r: seq<Prefix>) {
    if e.target == t || (e.target, |p| + 1) in seen then q else q + [Prefix(e.target, p + [e])]
  }

  lemma FollowKeepsFollowed(t: Id, seen: set<Key>, out: seq<seq<Edge>>, p: seq<Edge>, e: Edge)
    ensures Followed(t, FollowSeen(t, seen, p, e), FollowOut(t, out, p, e), |p|, e)
    ensures forall d, f :: Followed(t, seen, out, d, f) ==>
      Followed(t, FollowSeen(t, seen, p, e), FollowOut(t, out, p, e), d, f)
  {
    forall d | HasLength(out, d) ensures HasLength(FollowOut(t, out, p, e), d) {
      if e.target == t { HasLengthGrows(out, p + [e], d); }
    }
    if e.target == t { HasLengthGrows(out, p + [e], |p| + 1); }
  }

  lemma FollowKeepsCovered(
      edges: seq<Edge>, causalOnly: bool, t: Id, bound: int, seen: set<Key>, q: seq<Prefix>, out: seq<seq<Edge>>,
      p: seq<Edge>, e: Edge, cur: Key)
    requires forall k :: k in seen && k != cur ==> Queued(q, k) || Expanded(edges, causalOnly, t, bound, seen, out, k)
    ensures forall k :: k in FollowSeen(t, seen, p, e) && k != cur ==>
      Queued(FollowQueue(t, seen, q, p, e), k) ||
      Expanded(edges, causalOnly, t, bound, FollowSeen(t, seen, p, e), FollowOut(t, out, p, e), k)
  {
    FollowKeepsFollowed(t, seen, out, p, e);
    var seen', q', out' := FollowSeen(t, seen, p, e), FollowQueue(t, seen, q, p, e), FollowOut(t, out, p, e);
    forall k | k in seen' && k != cur
      ensures Queued(q', k) || Expanded(edges, causalOnly, t, bound, seen', out', k)
    {
      if k in seen {
        if Queued(q, k) {
          var i :| 0 <= i < |q| && KeyOf(q[i]) == k;
          assert KeyOf(q'[i]) == k;
        } else {
          assert Expanded(edges, causalOnly, t, bound, seen, out, k);
        }
      } else {
        assert KeyOf(q'[|q|]) == k;
      }
    }
  }

  lemma FollowKeepsOrder(t: Id, seen: set<Key>, q: seq<Prefix>, out: seq<seq<Edge>>, p: seq<Edge>, e: Edge)
    requires QueueOrdered(q, |p|) && OutOrdered(out, |p|)
    ensures QueueOrdered(FollowQueue(t, seen, q, p, e), |p|) && OutOrdered(FollowOut(t, out, p, e), |p|)
  {
  }

  lemma FollowKeepsSound(
      edges: seq<Edge>, causalOnly: bool, s: Id, t: Id, bound: int, seen: set<Key>, q: seq<Prefix>,
      out: seq<seq<Edge>>, n: Id, p: seq<Edge>, e: Edge)
    requires QueueSound(edges, causalOnly, s, t, q) && OutSound(edges, causalOnly, s, t, bound, out)
    requires Approach(edges, causalOnly, s, t, n, p) && |p| < bound && e in Out(edges, causalOnly, n)
    ensures QueueSound(edges, causalOnly, s, t, FollowQueue(t, seen, q, p, e))
    ensures OutSound(edges, causalOnly, s, t, bound, FollowOut(t, out, p, e))
  {
    ExtendApproach(edges, causalOnly, s, t, n, p, e);
    hide Walk, Approach;
  }

  /** Between two turns of the outer loop. */
  ghost predicate Between(c: Search, seen: set<Key>, q: seq<Prefix>, out: seq<seq<Edge>>, level: int) {
    && QueueSound(c.edges, c.causalOnly, c.source, c.target, q)
    && OutSound(c.edges, c.causalOnly, c.source, c.target, c.bound, out)
    && QueueOrdered(q, level) && OutOrdered(out, level)
    && (c.source, 0) in seen && seen <= Universe(c.edges, c.source, c.bound)
    && Covered(c.edges, c.causalOnly, c.target, c.bound, seen, q, out)
  }

  /** While the popped prefix `x` is being expanded, with its first `done` edges followed. */
  ghost predicate Within(c: Search, seen: set<Key>, q: seq<Prefix>, out: seq<seq<Edge>>, x: Prefix, done: nat) {
    && QueueSound(c.edges, c.causalOnly, c.source, c.target, q)
    && OutSound(c.edges, c.causalOnly, c.source, c.target, c.bound, out)
    && QueueOrdered(q, |x.path|) && OutOrdered(out, |x.path|)
    && (c.source, 0) in seen && seen <= Universe(c.edges, c.source, c.bound)
    && Approach(c.edges, c.causalOnly, c.source, c.target, x.node, x.path)
    && (forall k :: k in seen && k != KeyOf(x) ==>
          Queued(q, k) || Expanded(c.edges, c.causalOnly, c.target, c.bound, seen, out, k))
    && done <= |Out(c.edges, c.causalOnly, x.node)|
    && (forall j :: 0 <= j < done ==> Followed(c.target, seen, out, |x.path|, Out(c.edges, c.causalOnly, x.node)[j]))
  }

  lemma Start(c: Search)
    ensures Between(c, {(c.source, 0)}, [Prefix(c.source, [])], [], 0)
  {
    var q := [Prefix(c.source, [])];
    assert KeyOf(q[0]) == (c.source, 0);
  }

  lemma Pop(c: Search, seen: set<Key>, q: seq<Prefix>, out: seq<seq<Edge>>, level: int)
    requires q != [] && Between(c, seen, q, out, level)
    ensures Within(c, seen, q[1..], out, q[0], 0)
  {
    hide Expanded, Approach, Out;
    forall k | k in seen && k != KeyOf(q[0]) && Queued(q, k) ensures Queued(q[1..], k) {
      var i :| 0 <= i < |q| && KeyOf(q[i]) == k;
      assert q[1..][i - 1] == q[i];
    }
  }

  lemma Follow(c: Search, seen: set<Key>, q: seq<Prefix>, out: seq<seq<Edge>>, x: Prefix, done: nat, e: Edge)
    requires Within(c, seen, q, out, x, done) && |x.path| < c.bound
    requires done < |Out(c.edges, c.causalOnly, x.node)| && e == Out(c.edges, c.causalOnly, x.node)[done]
    ensures Within(c, FollowSeen(c.target, seen, x.path, e), FollowQueue(c.target, seen, q, x.path, e),
                   FollowOut(c.target, out, x.path, e), x, done + 1)
  {
    hide QueueSound, OutSound, QueueOrdered, OutOrdered, Approach, Expanded, Followed;
    FollowKeepsSound(c.edges, c.causalOnly, c.source, c.target, c.bound, seen, q, out, x.node, x.path, e);
    FollowKeepsOrder(c.target, seen, q, out, x.path, e);
    FollowKeepsCovered(c.edges, c.causalOnly, c.target, c.bound, seen, q, out, x.path, e, KeyOf(x));
    FollowKeepsFollowed(c.target, seen, out, x.path, e);
    assert e in c.edges;
    assert (e.target, |x.path| + 1) in Universe(c.edges, c.source, c.bound);
  }

  lemma Finish(c: Search, seen: set<Key>, q: seq<Prefix>, out: seq<seq<Edge>>, x: Prefix, done: nat)
    requires Within(c, seen, q, out, x, done)
    requires |x.path| >= c.bound || done == |Out(c.edges, c.causalOnly, x.node)|
    ensures Between(c, seen, q, out, |x.path|)
  {
    hide QueueSound, OutSound, QueueOrdered, OutOrdered, Approach, Followed, Queued;
    assert Expanded(c.edges, c.causalOnly, c.target, c.bound, seen, out, KeyOf(x));
  }

  /** The bounded breadth-first search. Every returned path is a walk over permitted edges within
      the bound; shortest paths come first; and if any such walk exists, one is returned that is
      no longer. */
  method Paths(edges: seq<Edge>, source: Id, target: Id, causalOnly: bool, maxDepth: int) returns (out: seq<seq<Edge>>)
    ensures OutSound(edges, causalOnly, source, target, maxDepth, out)
    ensures forall i, j :: 0 <= i < j < |out| ==> |out[i]| <= |out[j]|
    ensures forall p :: Walk(edges, causalOnly, source, target, p) && |p| <= maxDepth ==> out != [] && |out[0]| <= |p|
    ensures out != [] <==> Reachable(edges, causalOnly, source, target, maxDepth)
    ensures CountedByEnd(edges, causalOnly, source, target, maxDepth, out)
  {
    hide Between, Within, Walk, Ledger, SeenSound, Tallied, Approach, Out;
    ghost var c := Search(edges, causalOnly, source, target, maxDepth);
    var adj := BuildAdjacency(edges, causalOnly);
    var q := [Prefix(source, [])];
    var seen: set<Key> := {(source, 0)};
    out := [];
    ghost var level, closed := 0, {};
    Start(c);
    StartLedger(c);
    while q != []
      invariant Between(c, seen, q, out, level)
      invariant Ledger(seen, q, closed, {}) && SeenSound(c, seen)
      invariant forall cur :: cur !in closed ==> Tallied(c, out, closed, cur, [])
      decreases Universe(edges, source, maxDepth) - seen, |q|
    {
      var n, path := q[0].node, q[0].path;
      ghost var oldSeen, oldQ := seen, q;
      Pop(c, seen, q, out, level);
      PopLedger(c, seen, q, out, closed);
      q := q[1..];
      ghost var done := 0;
      if |path| < maxDepth {
        var next := Successors(adj, n);
        assert next[..0] == [];
        for i := 0 to |next|
          invariant done == i && Within(c, seen, q, out, oldQ[0], i)
          invariant Ledger(seen, q, closed, {KeyOf(oldQ[0])}) && SeenSound(c, seen)
          invariant Tallied(c, out, closed, KeyOf(oldQ[0]), next[..i])
          invariant oldSeen <= seen && (seen == oldSeen ==> q == oldQ[1..])
        {
          var e := next[i];
          Follow(c, seen, q, out, oldQ[0], i, e);
          WithinApproach(c, seen, q, out, oldQ[0], i);
          FollowLedger(c, seen, q, out, closed, oldQ[0], i, e);
          var np := path + [e];
          if e.target == target {
            out := out + [np];
          } else {
            var key := (e.target, |np|);
            if key !in seen {
              seen := seen + {key};
              q := q + [Prefix(e.target, np)];
            } else {
              assert seen + {key} == seen;
            }
          }
          done := done + 1;
        }
        assert next[..|next|] == next;
        CloseLedger(c, seen, q, out, closed, oldQ[0], next);
      } else {
        CloseLedger(c, seen, q, out, closed, oldQ[0], []);
      }
      closed := closed + {KeyOf(oldQ[0])};
      Finish(c, seen, q, out, oldQ[0], done);
      level := |path|;
      SeenInUniverse(c, seen, q, out, level);
    }
    Conclude(c, seen, out, level);
    ConcludeCount(c, seen, out, closed, level);
  }

  /** Some walk of `d` edges arrives at `n` without entering the target. */
  ghost predicate Arrives(edges: seq<Edge>, causalOnly: bool, s: Id, t: Id, n: Id, d: int) {
    exists p :: Approach(edges, causalOnly, s, t, n, p) && |p| == d
  }

  /** Of the paths of one length with one last edge there are exactly as many as the graph holds
      copies of that edge, if it is permitted, enters the target, and can be arrived at in time;
      otherwise there are none. */
  ghost predicate CountedByEnd(
      edges: seq<Edge>, causalOnly: bool, s: Id, t: Id, bound: int, out: seq<seq<Edge>>)
  {
    && (forall i :: 0 <= i < |out| ==> out[i] != [])
    && forall d, e :: multiset(Ends(out))[(d, e)] ==
        if e.target == t && Permitted(causalOnly, e) && d < bound && Arrives(edges, causalOnly, s, t, e.source, d)
        then multiset(edges)[e] else 0
  }

  /** So every path that may be returned has one of its length and last edge among those that are. */
  lemma HitHasEnd(
      edges: seq<Edge>, causalOnly: bool, s: Id, t: Id, bound: int, out: seq<seq<Edge>>, p: seq<Edge>)
    requires CountedByEnd(edges, causalOnly, s, t, bound, out) && Hit(edges, causalOnly, s, t, bound, p)
    ensures exists q :: q in out && q != [] && End(q) == End(p)
  {
    var d, e := |p| - 1, p[|p| - 1];
    var front := p[..d];
    assert Approach(edges, causalOnly, s, t, e.source, front) by {
      if front != [] { assert Walk(edges, causalOnly, s, e.source, front); }
    }
    assert e in edges;
    assert End(p) in multiset(Ends(out));
    var i :| 0 <= i < |out| && Ends(out)[i] == End(p);
    assert out[i] in out;
  }

  /** And the number of paths is a matter of the graph alone. */
  lemma CountIsDetermined(
      edges: seq<Edge>, causalOnly: bool, s: Id, t: Id, bound: int, a: seq<seq<Edge>>, b: seq<seq<Edge>>)
    requires CountedByEnd(edges, causalOnly, s, t, bound, a) && CountedByEnd(edges, causalOnly, s, t, bound, b)
    ensures |a| == |b|
  {
    hide Ends, Arrives, Permitted;
    forall k ensures multiset(Ends(a))[k] == multiset(Ends(b))[k] {
      var (d, e) := k;
      assert k == (d, e);
    }
    assert multiset(Ends(a)) == multiset(Ends(b));
    assert |multiset(Ends(a))| == |Ends(a)| && |multiset(Ends(b))| == |Ends(b)|;
  }

  lemma WithinApproach(c: Search, seen: set<Key>, q: seq<Prefix>, out: seq<seq<Edge>>, x: Prefix, done: nat)
    requires Within(c, seen, q, out, x, done)
    ensures Approach(c.edges, c.causalOnly, c.source, c.target, x.node, x.path)
  {
  }

  lemma ConcludeCount(c: Search, seen: set<Key>, out: seq<seq<Edge>>, closed: set<Key>, level: int)
    requires Between(c, seen, [], out, level) && Ledger(seen, [], closed, {}) && SeenSound(c, seen)
    requires forall cur :: cur !in closed ==> Tallied(c, out, closed, cur, [])
    ensures CountedByEnd(c.edges, c.causalOnly, c.source, c.target, c.bound, out)
  {
    hide Approach, Out, Ends, Covered;
    assert closed == seen by { assert forall k :: k in seen ==> !Queued([], k); }
    var nowhere := ("", -1);
    assert nowhere !in closed;
    assert Tallied(c, out, closed, nowhere, []);
    forall d, e
      ensures multiset(Ends(out))[(d, e)] ==
        if e.target == c.target && Permitted(c.causalOnly, e) && d < c.bound &&
          Arrives(c.edges, c.causalOnly, c.source, c.target, e.source, d)
        then multiset(c.edges)[e] else 0
    {
      OutCounts(c.edges, c.causalOnly, e.source, e);
      if d < c.bound && Arrives(c.edges, c.causalOnly, c.source, c.target, e.source, d) {
        var p :| Approach(c.edges, c.causalOnly, c.source, c.target, e.source, p) && |p| == d;
        ApproachIsSeen(c.edges, c.causalOnly, c.source, c.target, c.bound, seen, out, e.source, p);
      }
    }
  }

  lemma Conclude(c: Search, seen: set<Key>, out: seq<seq<Edge>>, level: int)
    requires Between(c, seen, [], out, level)
    ensures OutSound(c.edges, c.causalOnly, c.source, c.target, c.bound, out)
    ensures forall i, j :: 0 <= i < j < |out| ==> |out[i]| <= |out[j]|
    ensures forall p :: Walk(c.edges, c.causalOnly, c.source, c.target, p) && |p| <= c.bound ==>
      out != [] && |out[0]| <= |p|
    ensures out != [] <==> Reachable(c.edges, c.causalOnly, c.source, c.target, c.bound)
  {
    hide Covered, Universe;
    forall p | Walk(c.edges, c.causalOnly, c.source, c.target, p) && |p| <= c.bound
      ensures out != [] && |out[0]| <= |p|
    {
      WalkIsFound(c.edges, c.causalOnly, c.source, c.target, c.bound, seen, out, p);
    }
    if out != [] { assert Hit(c.edges, c.causalOnly, c.source, c.target, c.bound, out[0]); }
  }

  lemma SeenInUniverse(c: Search, seen: set<Key>, q: seq<Prefix>, out: seq<seq<Edge>>, level: int)
    requires Between(c, seen, q, out, level)
    ensures seen <= Universe(c.edges, c.source, c.bound)
  {
  }

  // ---- Completeness ----

  lemma {:induction false} ApproachIsSeen(
      edges: seq<Edge>, causalOnly: bool, s: Id, t: Id, bound: int, seen: set<Key>, out: seq<seq<Edge>>, n: Id,
      p: seq<Edge>)
    requires (s, 0) in seen && Covered(edges, causalOnly, t, bound, seen, [], out)
    requires Approach(edges, causalOnly, s, t, n, p) && |p| <= bound
    ensures (n, |p|) in seen
    decreases |p|
  {
    if p != [] {
      var front, e := p[..|p| - 1], p[|p| - 1];
      assert p == front + [e];
      ApproachIsSeen(edges, causalOnly, s, t, bound, seen, out, e.source, front);
      assert Expanded(edges, causalOnly, t, bound, seen, out, (e.source, |front|));
      assert e in Out(edges, causalOnly, e.source);
      assert Followed(t, seen, out, |front|, e);
    }
  }

  function FirstEntry(t: Id, p: seq<Edge>): (i: nat)
    requires exists k :: 0 <= k < |p| && p[k].target == t
    ensures i < |p| && p[i].target == t && forall j :: 0 <= j < i ==> p[j].target != t
  {
    if p[0].target == t then 0
    else
      assert exists k :: 0 <= k < |p[1..]| && p[1..][k].target == t by {
        var k :| 0 <= k < |p| && p[k].target == t;
        assert p[1..][k - 1] == p[k];
      }
      var r := 1 + FirstEntry(t, p[1..]);
      assert forall j :: 0 < j < r ==> p[j] == p[1..][j - 1];
      r
  }

  lemma WalkIsFound(
      edges: seq<Edge>, causalOnly: bool, s: Id, t: Id, bound: int, seen: set<Key>, out: seq<seq<Edge>>, p: seq<Edge>)
    requires (s, 0) in seen && Covered(edges, causalOnly, t, bound, seen, [], out)
    requires forall i, j :: 0 <= i < j < |out| ==> |out[i]| <= |out[j]|
    requires Walk(edges, causalOnly, s, t, p) && |p| <= bound
    ensures out != [] && |out[0]| <= |p|
  {
    assert p[|p| - 1].target == t;
    var k := FirstEntry(t, p);
    var front, e := p[..k], p[k];
    ApproachIsSeen(edges, causalOnly, s, t, bound, seen, out, e.source, front);
    assert Expanded(edges, causalOnly, t, bound, seen, out, (e.source, k));
    assert e in Out(edges, causalOnly, e.source);
    assert Followed(t, seen, out, k, e);
    var i :| 0 <= i < |out| && |out[i]| == k + 1;
  }
}
