/** Descendants and shortest causal paths in agent incidents. */
module AgenticGraph {

  /** What an event id field holds; None is a missing or null id. */
  datatype Node = NoId | Id(name: string)

  type Graph = map<Node, seq<Node>>

  function Next(g: Graph, x: Node): (r: seq<Node>) { if x in g then g[x] else [] }

  /** A directed walk given by its nodes. */
  ghost predicate Path(g: Graph, s: Node, t: Node, p: seq<Node>) {
    && p != [] && p[0] == s && p[|p| - 1] == t
    && forall i :: 0 <= i < |p| - 1 ==> p[i + 1] in Next(g, p[i])
  }

  /** Reachable by one or more edges. */
  ghost predicate Descendant(g: Graph, s: Node, t: Node) { exists p :: Path(g, s, t, p) && |p| >= 2 }

  function Targets(g: Graph): (r: set<Node>) { set x, y | x in g && y in g[x] :: y }

  lemma PathExtend(g: Graph, s: Node, t: Node, u: Node, p: seq<Node>)
    requires Path(g, s, t, p) && u in Next(g, t)
    ensures Path(g, s, u, p + [u])
  {
  }

  lemma DescendantExtend(g: Graph, s: Node, t: Node, u: Node)
    requires (t == s || Descendant(g, s, t)) && u in Next(g, t)
    ensures Descendant(g, s, u)
  {
    if t == s {
      assert Path(g, s, u, [s, u]);
    } else {
      var p :| Path(g, s, t, p) && |p| >= 2;
      PathExtend(g, s, t, u, p);
    }
  }

  lemma PathFront(g: Graph, s: Node, t: Node, p: seq<Node>)
    requires Path(g, s, t, p) && |p| >= 2
    ensures Path(g, s, p[|p| - 2], p[..|p| - 1]) && t in Next(g, p[|p| - 2])
  {
  }

  function Waiting(q: seq<Node>): (s: set<Node>) { set x | x in q }

  lemma WaitingAppend(q: seq<Node>, y: Node)
    ensures Waiting(q + [y]) == Waiting(q) + {y}
  {
  }

  lemma NextAreTargets(g: Graph, x: Node)
    ensures forall y :: y in Next(g, x) ==> y in Targets(g)
  {
  }

  // ---- descendants() ----

  /** Every node that is neither waiting nor current has all its successors in `seen`. */
  ghost predicate Closed(g: Graph, seed: Node, seen: set<Node>, open: set<Node>) {
    forall x, y :: (x == seed || x in seen) && x !in open && y in Next(g, x) ==> y in seen
  }

  lemma {:induction false} ClosedContains(g: Graph, seed: Node, seen: set<Node>, t: Node, p: seq<Node>)
    requires Closed(g, seed, seen, {}) && Path(g, seed, t, p)
    ensures t == seed || t in seen
    ensures |p| >= 2 ==> t in seen
    decreases |p|
  {
    if |p| >= 2 {
      PathFront(g, seed, t, p);
      ClosedContains(g, seed, seen, p[|p| - 2], p[..|p| - 1]);
    }
  }

  /** The state of the search; `open` is the queue and the node being expanded. */
  ghost predicate Exploring(g: Graph, seed: Node, seen: set<Node>, q: seq<Node>, open: set<Node>) {
    && seen <= Targets(g) && (forall y :: y in seen ==> Descendant(g, seed, y))
    && (forall x :: x in open ==> x == seed || x in seen)
    && Closed(g, seed, seen, open)
  }

  lemma PopExploring(g: Graph, seed: Node, seen: set<Node>, q: seq<Node>)
    requires q != [] && Exploring(g, seed, seen, q, Waiting(q))
    ensures Exploring(g, seed, seen, q[1..], Waiting(q[1..]) + {q[0]})
  {
    assert q == [q[0]] + q[1..];
    assert Waiting(q[1..]) + {q[0]} == Waiting(q);
  }

  lemma GrowExploring(g: Graph, seed: Node, seen: set<Node>, q: seq<Node>, x: Node, y: Node)
    requires Exploring(g, seed, seen, q, Waiting(q) + {x}) && y in Next(g, x)
    ensures Exploring(g, seed, seen + {y}, q + [y], Waiting(q + [y]) + {x})
  {
    hide Descendant;
    DescendantExtend(g, seed, x, y);
    assert Waiting(q + [y]) + {x} == Waiting(q) + {x} + {y};
  }

  lemma DoneExploring(g: Graph, seed: Node, seen: set<Node>, q: seq<Node>, x: Node)
    requires Exploring(g, seed, seen, q, Waiting(q) + {x}) && forall y :: y in Next(g, x) ==> y in seen
    ensures Exploring(g, seed, seen, q, Waiting(q))
  {
    hide Descendant;
  }

  lemma ExploredAll(g: Graph, seed: Node, seen: set<Node>)
    requires Exploring(g, seed, seen, [], Waiting([]))
    ensures forall t :: t in seen <==> Descendant(g, seed, t)
  {
    assert Waiting([]) == {};
    forall t | Descendant(g, seed, t) ensures t in seen {
      var p :| Path(g, seed, t, p) && |p| >= 2;
      ClosedContains(g, seed, seen, t, p);
    }
  }

  method Descendants(g: Graph, seed: Node) returns (seen: set<Node>)
    ensures forall t :: t in seen <==> Descendant(g, seed, t)
  {
    hide Exploring, Descendant, Waiting, Targets;
    seen := {};
    var q := [seed];
    StartExploring(g, seed);
    while q != []
      invariant Exploring(g, seed, seen, q, Waiting(q))
      decreases Targets(g) - seen, |q|
    {
      var x := q[0];
      ghost var oldSeen, oldQ := seen, q;
      PopExploring(g, seed, seen, q);
      q := q[1..];
      var next := Next(g, x);
      for i := 0 to |next|
        invariant oldSeen <= seen && (seen == oldSeen ==> q == oldQ[1..])
        invariant Exploring(g, seed, seen, q, Waiting(q) + {x})
        invariant forall j :: 0 <= j < i ==> next[j] in seen
      {
        var y := next[i];
        if y !in seen {
          GrowExploring(g, seed, seen, q, x, y);
          seen, q := seen + {y}, q + [y];
        }
      }
      DoneExploring(g, seed, seen, q, x);
      SeenAreTargets(g, seed, seen, q, Waiting(q));
    }
    ExploredAll(g, seed, seen);
  }

  lemma StartExploring(g: Graph, seed: Node)
    ensures Exploring(g, seed, {}, [seed], Waiting([seed]))
  {
    assert seed in Waiting([seed]);
  }

  lemma SeenAreTargets(g: Graph, seed: Node, seen: set<Node>, q: seq<Node>, open: set<Node>)
    requires Exploring(g, seed, seen, q, open)
    ensures seen <= Targets(g)
  {
  }

  // ---- Shortest paths ----

  /** A breadth-first tree: every node but the seed hangs one level below its parent. */
  ghost predicate Tree(g: Graph, seed: Node, prev: map<Node, Node>, depth: map<Node, nat>) {
    && prev.Keys == depth.Keys && seed in prev && prev[seed] == NoId && depth[seed] == 0
    && forall n :: n in prev && n != seed ==>
        prev[n] in prev && n in Next(g, prev[n]) && depth[n] == depth[prev[n]] + 1
  }

  /** No walk reaches a node of the tree in fewer steps than its depth. */
  ghost predicate Shortest(g: Graph, seed: Node, depth: map<Node, nat>) {
    forall n, p :: n in depth && Path(g, seed, n, p) ==> depth[n] < |p|
  }

  /** The queue holds the tree's unexpanded nodes, nearest first, on at most two levels. */
  ghost predicate Frontier(depth: map<Node, nat>, q: seq<Node>, level: nat) {
    && (forall i :: 0 <= i < |q| ==> q[i] in depth && level <= depth[q[i]] <= level + 1)
    && (forall i, j :: 0 <= i < j < |q| ==> depth[q[i]] <= depth[q[j]])
    && (forall n :: n in depth ==> depth[n] <= level + 1)
  }

  /** Every tree node outside `open` has its successors in the tree, at most one level down. */
  ghost predicate Expanded(g: Graph, depth: map<Node, nat>, open: set<Node>) {
    forall x, y :: x in depth && x !in open && y in Next(g, x) ==> y in depth && depth[y] <= depth[x] + 1
  }

  /** While every node above `level` is expanded, short walks stay inside the tree. */
  lemma {:induction false} ShortWalkInTree(
      g: Graph, seed: Node, depth: map<Node, nat>, open: set<Node>, level: nat, n: Node, p: seq<Node>)
    requires seed in depth && depth[seed] == 0 && Expanded(g, depth, open)
    requires forall x :: x in open && x in depth ==> level <= depth[x]
    requires Path(g, seed, n, p) && |p| <= level + 1
    ensures n in depth && depth[n] < |p|
    decreases |p|
  {
    if |p| >= 2 {
      PathFront(g, seed, n, p);
      ShortWalkInTree(g, seed, depth, open, level, p[|p| - 2], p[..|p| - 1]);
    }
  }

  /** The state of the search; `open` is the queue and the node being expanded. */
  ghost predicate Searching(
      g: Graph, seed: Node, prev: map<Node, Node>, depth: map<Node, nat>, q: seq<Node>, open: set<Node>, level: nat)
  {
    && Tree(g, seed, prev, depth) && Shortest(g, seed, depth) && Frontier(depth, q, level)
    && Expanded(g, depth, open) && (forall x :: x in open ==> x in depth && level <= depth[x])
  }

  lemma StartSearch(g: Graph, seed: Node)
    ensures Searching(g, seed, map[seed := NoId], map[seed := 0], [seed], Waiting([seed]), 0)
  {
  }

  lemma PopSearch(g: Graph, seed: Node, prev: map<Node, Node>, depth: map<Node, nat>, q: seq<Node>, level: nat)
    requires q != [] && Searching(g, seed, prev, depth, q, Waiting(q), level)
    ensures q[0] in depth
    ensures Searching(g, seed, prev, depth, q[1..], Waiting(q[1..]) + {q[0]}, depth[q[0]])
  {
    hide Tree, Shortest, Expanded;
    assert q == [q[0]] + q[1..];
    assert Waiting(q[1..]) + {q[0]} == Waiting(q);
  }

  lemma GrowTree(g: Graph, seed: Node, prev: map<Node, Node>, depth: map<Node, nat>, cur: Node, y: Node)
    requires Tree(g, seed, prev, depth) && cur in depth && y !in prev && y in Next(g, cur)
    ensures Tree(g, seed, prev[y := cur], depth[y := depth[cur] + 1])
  {
  }

  lemma GrowShortest(
      g: Graph, seed: Node, prev: map<Node, Node>, depth: map<Node, nat>, open: set<Node>, level: nat, y: Node)
    requires Tree(g, seed, prev, depth) && Shortest(g, seed, depth) && Expanded(g, depth, open)
    requires (forall x :: x in open ==> x in depth && level <= depth[x]) && y !in depth
    ensures Shortest(g, seed, depth[y := level + 1])
  {
    var depth' := depth[y := level + 1];
    forall n, p | n in depth' && Path(g, seed, n, p) ensures depth'[n] < |p| {
      if n == y && |p| <= level + 1 { ShortWalkInTree(g, seed, depth, open, level, y, p); }
    }
  }

  lemma GrowFrontier(depth: map<Node, nat>, q: seq<Node>, level: nat, y: Node)
    requires Frontier(depth, q, level) && y !in depth
    ensures Frontier(depth[y := level + 1], q + [y], level)
  {
  }

  lemma GrowExpanded(g: Graph, depth: map<Node, nat>, open: set<Node>, level: nat, y: Node)
    requires Expanded(g, depth, open) && y !in depth
    ensures Expanded(g, depth[y := level + 1], open + {y})
  {
    var depth' := depth[y := level + 1];
    forall u, v | u in depth' && u !in open + {y} && v in Next(g, u)
      ensures v in depth' && depth'[v] <= depth'[u] + 1
    {
      assert u in depth && v in depth;
    }
  }

  /** Discovering `y` from `cur`. */
  lemma GrowSearch(g: Graph, seed: Node, prev: map<Node, Node>, depth: map<Node, nat>, q: seq<Node>, cur: Node, y: Node)
    requires cur in depth && y !in prev && y in Next(g, cur)
    requires Searching(g, seed, prev, depth, q, Waiting(q) + {cur}, depth[cur])
    ensures Searching(g, seed, prev[y := cur], depth[y := depth[cur] + 1], q + [y], Waiting(q + [y]) + {cur},
      depth[cur])
  {
    hide Tree, Shortest, Frontier, Expanded, Waiting;
    TreeKeys(g, seed, prev, depth);
    var open, level := Waiting(q) + {cur}, depth[cur];
    GrowTree(g, seed, prev, depth, cur, y);
    GrowShortest(g, seed, prev, depth, open, level, y);
    GrowFrontier(depth, q, level, y);
    GrowExpanded(g, depth, open, level, y);
    WaitingAppend(q, y);
    assert Waiting(q + [y]) + {cur} == open + {y};
  }

  /** All successors of `cur` are in the tree: it is expanded. */
  lemma DoneSearch(g: Graph, seed: Node, prev: map<Node, Node>, depth: map<Node, nat>, q: seq<Node>, cur: Node)
    requires cur in depth && Searching(g, seed, prev, depth, q, Waiting(q) + {cur}, depth[cur])
    requires forall y :: y in Next(g, cur) ==> y in prev
    ensures Searching(g, seed, prev, depth, q, Waiting(q), depth[cur])
  {
    hide Tree, Shortest;
    assert prev.Keys == depth.Keys by { TreeKeys(g, seed, prev, depth); }
  }

  lemma TreeKeys(g: Graph, seed: Node, prev: map<Node, Node>, depth: map<Node, nat>)
    requires Tree(g, seed, prev, depth)
    ensures prev.Keys == depth.Keys && seed in prev
  {
  }

  // ---- The order of discovery ----

  /** What the successors of the first `h` nodes found are: found. */
  ghost predicate FoundBelow(g: Graph, order: seq<Node>, h: nat) {
    forall x, y :: 0 <= x < h && x < |order| && y in Next(g, order[x]) ==> y in order
  }

  /** Whoever a later node hangs below, the successors of every node found before that were found
      before the later node. */
  ghost predicate EarlierFirst(g: Graph, order: seq<Node>, par: seq<nat>) {
    |par| == |order| && forall m, x, y ::
      0 < m < |order| && 0 <= x < par[m] && x < |order| && y in Next(g, order[x]) ==> y in order[..m]
  }

  /** In this list, `y` comes before every `x`. */
  ghost predicate Listed(next: seq<Node>, y: Node, x: Node) {
    exists j :: 0 <= j < |next| && next[j] == y && x !in next[..j + 1]
  }

  /** And so were the successors listed before it. */
  ghost predicate ListedFirst(g: Graph, order: seq<Node>, par: seq<nat>) {
    && |par| == |order|
    && forall m, p, y :: 0 < m < |order| && p == par[m] < |order| && Listed(Next(g, order[p]), y, order[m]) ==>
        y in order[..m]
  }

  /** The nodes of the tree in the order they were found, each with its predecessor's place. */
  ghost predicate Discovery(g: Graph, seed: Node, prev: map<Node, Node>, order: seq<Node>, par: seq<nat>) {
    && |par| == |order| > 0 && order[0] == seed
    && (forall i, j :: 0 <= i < j < |order| ==> order[i] != order[j])
    && (forall n :: n in prev <==> n in order)
    && (forall m :: 0 < m < |order| ==> par[m] < m && prev[order[m]] == order[par[m]])
    && EarlierFirst(g, order, par) && ListedFirst(g, order, par)
  }

  lemma StartDiscovery(g: Graph, seed: Node)
    ensures Discovery(g, seed, map[seed := NoId], [seed], [0]) && FoundBelow(g, [seed], 0)
  {
  }

  lemma GrowDiscovery(
      g: Graph, seed: Node, prev: map<Node, Node>, order: seq<Node>, par: seq<nat>, h: nat, i: nat)
    requires Discovery(g, seed, prev, order, par) && h < |order| && FoundBelow(g, order, h)
    requires i < |Next(g, order[h])| && forall y :: y in Next(g, order[h])[..i] ==> y in order
    requires Next(g, order[h])[i] !in prev
    ensures var y := Next(g, order[h])[i];
      Discovery(g, seed, prev[y := order[h]], order + [y], par + [h]) && FoundBelow(g, order + [y], h)
  {
    hide EarlierFirst, ListedFirst, Next;
    var y := Next(g, order[h])[i];
    GrowEarlier(g, order, par, h, y);
    GrowListed(g, order, par, h, i);
  }

  lemma GrowEarlier(g: Graph, order: seq<Node>, par: seq<nat>, h: nat, y: Node)
    requires EarlierFirst(g, order, par) && h < |order| && FoundBelow(g, order, h)
    requires forall m :: 0 < m < |order| ==> par[m] < m
    ensures EarlierFirst(g, order + [y], par + [h])
  {
    hide Next;
    var o, q := order + [y], par + [h];
    forall m, x, z | 0 < m < |o| && 0 <= x < q[m] && x < |o| && z in Next(g, o[x]) ensures z in o[..m] {
      if m < |order| {
        assert o[..m] == order[..m];
      } else {
        assert o[..m] == order;
      }
    }
  }

  lemma GrowListed(g: Graph, order: seq<Node>, par: seq<nat>, h: nat, i: nat)
    requires ListedFirst(g, order, par) && h < |order|
    requires forall m :: 0 < m < |order| ==> par[m] < m
    requires i < |Next(g, order[h])| && forall y :: y in Next(g, order[h])[..i] ==> y in order
    ensures ListedFirst(g, order + [Next(g, order[h])[i]], par + [h])
  {
    hide Next;
    var next := Next(g, order[h]);
    var o, q := order + [next[i]], par + [h];
    forall m, p, z | 0 < m < |o| && p == q[m] < |o| && Listed(Next(g, o[p]), z, o[m]) ensures z in o[..m] {
      if m < |order| {
        assert o[..m] == order[..m] && o[p] == order[par[m]];
      } else {
        assert o[..m] == order && o[p] == order[h];
        var j :| 0 <= j < |next| && next[j] == z && next[i] !in next[..j + 1];
        if i <= j { assert false; }
        assert next[..i][j] == z;
      }
    }
  }

  lemma FoundNext(g: Graph, prev: map<Node, Node>, order: seq<Node>, h: nat)
    requires h < |order| && FoundBelow(g, order, h) && (forall n :: n in prev <==> n in order)
    requires forall y :: y in Next(g, order[h]) ==> y in prev
    ensures FoundBelow(g, order, h + 1)
  {
  }

  /** No successor listed before the next node of the path leads to its end in as few steps. */
  ghost predicate First(g: Graph, t: Node, full: seq<Node>) {
    forall i, y, p :: 0 <= i < |full| - 1 && Listed(Next(g, full[i]), y, full[i + 1]) && Path(g, y, t, p) ==>
      |full| - i <= |p|
  }

  /** The shortest path that takes, at every node, the successor listed first among those that
      lie on one. */
  ghost predicate FirstShortest(g: Graph, s: Node, t: Node, full: seq<Node>) {
    Path(g, s, t, full) && (forall p :: Path(g, s, t, p) ==> |full| <= |p|) && First(g, t, full)
  }

  /** There is only one. */
  lemma FirstShortestUnique(g: Graph, s: Node, t: Node, a: seq<Node>, b: seq<Node>)
    requires FirstShortest(g, s, t, a) && FirstShortest(g, s, t, b)
    ensures a == b
  {
    hide First;
    assert |a| == |b|;
    SamePrefix(g, s, t, a, b, |a|);
    assert a[..|a|] == a && b[..|b|] == b;
  }

  lemma {:induction false} SamePrefix(g: Graph, s: Node, t: Node, a: seq<Node>, b: seq<Node>, n: nat)
    requires Path(g, s, t, a) && Path(g, s, t, b) && |a| == |b| && First(g, t, a) && First(g, t, b) && n <= |a|
    ensures a[..n] == b[..n]
  {
    hide Path, First;
    if n == 1 {
      PathEnds(g, s, t, a);
      PathEnds(g, s, t, b);
    } else if n > 1 {
      SamePrefix(g, s, t, a, b, n - 1);
      assert a[n - 2] == a[..n - 1][n - 2] && b[n - 2] == b[..n - 1][n - 2];
      SameStep(g, s, t, a, b, n - 2);
      assert a[..n] == a[..n - 1] + [a[n - 1]] && b[..n] == b[..n - 1] + [b[n - 1]];
    }
  }

  lemma SameStep(g: Graph, s: Node, t: Node, a: seq<Node>, b: seq<Node>, i: nat)
    requires Path(g, s, t, a) && Path(g, s, t, b) && |a| == |b| && First(g, t, a) && First(g, t, b)
    requires i < |a| - 1 && a[i] == b[i]
    ensures a[i + 1] == b[i + 1]
  {
    hide Path, Listed, Next;
    SuccessorsOf(g, s, t, a, b, i);
    PathBack(g, s, t, a, i + 1);
    PathBack(g, s, t, b, i + 1);
    if a[i + 1] != b[i + 1] { OneIsListed(Next(g, a[i]), a[i + 1], b[i + 1]); }
  }

  lemma SuccessorsOf(g: Graph, s: Node, t: Node, a: seq<Node>, b: seq<Node>, i: nat)
    requires Path(g, s, t, a) && Path(g, s, t, b) && |a| == |b| && i < |a| - 1 && a[i] == b[i]
    ensures a[i + 1] in Next(g, a[i]) && b[i + 1] in Next(g, a[i])
  {
  }

  lemma {:induction false} OneIsListed(next: seq<Node>, x: Node, y: Node)
    requires x in next && y in next && x != y
    ensures Listed(next, x, y) || Listed(next, y, x)
  {
    if next[0] == x {
      assert next[..1] == [x];
    } else if next[0] == y {
      assert next[..1] == [y];
    } else {
      var rest := next[1..];
      OneIsListed(rest, x, y);
      forall u, v | Listed(rest, u, v) && next[0] != v ensures Listed(next, u, v) {
        var j :| 0 <= j < |rest| && rest[j] == u && v !in rest[..j + 1];
        assert next[..j + 2] == [next[0]] + rest[..j + 1];
        assert next[j + 1] == u;
      }
    }
  }

  lemma PathBack(g: Graph, s: Node, t: Node, p: seq<Node>, i: nat)
    requires Path(g, s, t, p) && i < |p|
    ensures Path(g, p[i], t, p[i..])
  {
  }

  /** Along a walk that turns off to an earlier listed successor, every node is found before the
      one of the tree path at its level. */
  lemma {:induction false} Overtakes(g: Graph, seed: Node, prev: map<Node, Node>, order: seq<Node>, par: seq<nat>,
      full: seq<Node>, i: nat, p: seq<Node>, t: Node, m: nat) returns (a: nat)
    requires Discovery(g, seed, prev, order, par) && FollowsTree(seed, prev, full)
    requires i + 1 + m < |full| && m < |p| && Listed(Next(g, full[i]), p[0], full[i + 1]) && Path(g, p[0], t, p)
    ensures a < |order| && order[a] == full[i + 1 + m] && p[m] in order[..a]
    decreases m
  {
    hide Next, EarlierFirst, ListedFirst, Listed;
    a := Place(seed, prev, order, par, full, g, i + 1 + m);
    if m == 0 {
      ListedBefore(g, order, par, a, p[0]);
    } else {
      var b := Overtakes(g, seed, prev, order, par, full, i, p, t, m - 1);
      var x :| 0 <= x < b && order[x] == p[m - 1];
      assert par[a] == b;
      assert p[m - 1 + 1] in Next(g, p[m - 1]);
      FoundBefore(g, order, par, a, x, p[m]);
    }
  }

  lemma ListedBefore(g: Graph, order: seq<Node>, par: seq<nat>, m: nat, y: Node)
    requires ListedFirst(g, order, par) && 0 < m < |order| && par[m] < |order|
    requires Listed(Next(g, order[par[m]]), y, order[m])
    ensures y in order[..m]
  {
  }

  lemma FoundBefore(g: Graph, order: seq<Node>, par: seq<nat>, m: nat, x: nat, y: Node)
    requires EarlierFirst(g, order, par) && 0 < m < |order| && x < par[m] && x < |order| && y in Next(g, order[x])
    ensures y in order[..m]
  {
  }

  /** Where a node of the tree path stands in the order of discovery. */
  lemma Place(seed: Node, prev: map<Node, Node>, order: seq<Node>, par: seq<nat>, full: seq<Node>, g: Graph, i: nat)
    returns (a: nat)
    requires Discovery(g, seed, prev, order, par) && FollowsTree(seed, prev, full) && 0 < i < |full|
    ensures 0 < a < |order| && order[a] == full[i] && par[a] < a && order[par[a]] == full[i - 1]
  {
    hide EarlierFirst, ListedFirst;
    a :| 0 <= a < |order| && order[a] == full[i];
  }

  /** So the tree path is the first shortest path. */
  lemma TracedIsFirst(g: Graph, seed: Node, prev: map<Node, Node>, order: seq<Node>, par: seq<nat>,
      target: Node, full: seq<Node>)
    requires Discovery(g, seed, prev, order, par) && FollowsTree(seed, prev, full)
    requires Path(g, seed, target, full) && forall p :: Path(g, seed, target, p) ==> |full| <= |p|
    ensures First(g, target, full)
  {
    hide Discovery, FollowsTree, Path, Next, Listed;
    forall i, y, p | 0 <= i < |full| - 1 && Listed(Next(g, full[i]), y, full[i + 1]) && Path(g, y, target, p)
      ensures |full| - i <= |p|
    {
      PathEnds(g, y, target, p);
      TurnedOffIsLonger(g, seed, prev, order, par, target, full, i, p);
    }
  }

  lemma TurnedOffIsLonger(g: Graph, seed: Node, prev: map<Node, Node>, order: seq<Node>, par: seq<nat>,
      target: Node, full: seq<Node>, i: nat, p: seq<Node>)
    requires Discovery(g, seed, prev, order, par) && FollowsTree(seed, prev, full)
    requires Path(g, seed, target, full) && forall p :: Path(g, seed, target, p) ==> |full| <= |p|
    requires i < |full| - 1 && p != [] && Listed(Next(g, full[i]), p[0], full[i + 1]) && Path(g, p[0], target, p)
    ensures |full| - i <= |p|
  {
    hide FollowsTree, Next, EarlierFirst, ListedFirst;
    if |p| < |full| - i {
      TurnOff(g, seed, target, full, i, p);
      var a := Overtakes(g, seed, prev, order, par, full, i, p, target, |p| - 1);
      assert false;
    }
  }

  lemma TurnOff(g: Graph, s: Node, t: Node, full: seq<Node>, i: nat, p: seq<Node>)
    requires Path(g, s, t, full) && i < |full| && p != [] && p[0] in Next(g, full[i]) && Path(g, p[0], t, p)
    ensures Path(g, s, t, full[..i + 1] + p)
  {
    hide Next;
    var w := full[..i + 1] + p;
    forall k | 0 <= k < |w| - 1 ensures w[k + 1] in Next(g, w[k]) {
      if k < i {
        assert w[k] == full[k] && w[k + 1] == full[k + 1];
      } else if k > i {
        assert w[k] == p[k - i - 1] && w[k + 1] == p[k - i - 1 + 1];
      }
    }
  }

  /** The first search loop of analyze: the predecessor map, complete enough to trace `target`. */
  method Predecessors(g: Graph, seed: Node, target: Node)
    returns (prev: map<Node, Node>, ghost depth: map<Node, nat>, ghost order: seq<Node>, ghost par: seq<nat>)
    ensures Tree(g, seed, prev, depth) && Shortest(g, seed, depth)
    ensures target in prev <==> target == seed || Descendant(g, seed, target)
    ensures Discovery(g, seed, prev, order, par)
  {
    hide Searching, Path, Tree, Shortest, Waiting, Targets, Descendant, Next, Discovery, FoundBelow;
    prev, depth, order, par := map[seed := NoId], map[seed := 0], [seed], [0];
    var q, found := [seed], false;
    ghost var level, h := 0, 0;
    StartSearch(g, seed);
    StartDiscovery(g, seed);
    while q != [] && !found
      invariant Discovery(g, seed, prev, order, par) && h <= |order| && FoundBelow(g, order, h)
      invariant !found ==> q == order[h..]
      invariant !found ==> Searching(g, seed, prev, depth, q, Waiting(q), level)
      invariant found ==> Tree(g, seed, prev, depth) && Shortest(g, seed, depth) && target in prev
      invariant prev.Keys <= Targets(g) + {seed}
      decreases Targets(g) + {seed} - prev.Keys, |q|, !found
    {
      var cur := q[0];
      ghost var oldPrev, oldQ := prev, q;
      PopSearch(g, seed, prev, depth, q, level);
      q := q[1..];
      level := depth[cur];
      DiscoveryOrder(g, seed, prev, order, par);
      var next := Next(g, cur);
      NextAreTargets(g, cur);
      var i := 0;
      while i < |next| && !found
        invariant 0 <= i <= |next| && cur in depth && depth[cur] == level
        invariant oldPrev.Keys <= prev.Keys <= Targets(g) + {seed}
        invariant !found && prev.Keys == oldPrev.Keys ==> q == oldQ[1..]
        invariant Discovery(g, seed, prev, order, par) && (forall n :: n in prev <==> n in order)
        invariant h < |order| && order[h] == cur && FoundBelow(g, order, h) && (!found ==> q == order[h + 1..])
        invariant !found ==> Searching(g, seed, prev, depth, q, Waiting(q) + {cur}, level)
        invariant !found ==> forall j :: 0 <= j < i ==> next[j] in prev
        invariant found ==> Tree(g, seed, prev, depth) && Shortest(g, seed, depth) && target in prev
        invariant found ==> prev.Keys != oldPrev.Keys
        decreases |next| - i, !found
      {
        var nxt := next[i];
        if nxt !in prev {
          Discover(g, seed, prev, depth, q, cur, nxt);
          FoundListed(prev, order, next, i);
          GrowDiscovery(g, seed, prev, order, par, h, i);
          prev, depth := prev[nxt := cur], depth[nxt := level + 1];
          order, par := order + [nxt], par + [h];
          DiscoveryOrder(g, seed, prev, order, par);
          if nxt == target { found := true; } else { q := q + [nxt]; }
        }
        if !found { i := i + 1; }
      }
      if !found {
        DoneSearch(g, seed, prev, depth, q, cur);
        FoundNext(g, prev, order, h);
        h := h + 1;
      }
    }
    if !found { SearchExhausted(g, seed, prev, depth, q, level, target); }
    TreeIsReachable(g, seed, prev, depth, target);
    TreeKeys(g, seed, prev, depth);
  }

  lemma DiscoveryOrder(g: Graph, seed: Node, prev: map<Node, Node>, order: seq<Node>, par: seq<nat>)
    requires Discovery(g, seed, prev, order, par)
    ensures |par| == |order| && forall n :: n in prev <==> n in order
  {
  }

  lemma FoundListed(prev: map<Node, Node>, order: seq<Node>, next: seq<Node>, i: nat)
    requires i <= |next| && (forall j :: 0 <= j < i ==> next[j] in prev) && (forall n :: n in prev <==> n in order)
    ensures forall y :: y in next[..i] ==> y in order
  {
  }

  lemma Discover(g: Graph, seed: Node, prev: map<Node, Node>, depth: map<Node, nat>, q: seq<Node>, cur: Node, y: Node)
    requires cur in depth && y !in prev && y in Next(g, cur)
    requires Searching(g, seed, prev, depth, q, Waiting(q) + {cur}, depth[cur])
    ensures cur != y
    ensures Searching(g, seed, prev[y := cur], depth[y := depth[cur] + 1], q + [y], Waiting(q + [y]) + {cur},
      depth[cur])
    ensures Tree(g, seed, prev[y := cur], depth[y := depth[cur] + 1]) && Shortest(g, seed, depth[y := depth[cur] + 1])
  {
    hide Searching, Tree, Shortest, Waiting, Next;
    SearchingTree(g, seed, prev, depth, q, Waiting(q) + {cur}, depth[cur]);
    TreeKeys(g, seed, prev, depth);
    GrowSearch(g, seed, prev, depth, q, cur, y);
    SearchingTree(g, seed, prev[y := cur], depth[y := depth[cur] + 1], q + [y], Waiting(q + [y]) + {cur}, depth[cur]);
  }

  lemma SearchingTree(
      g: Graph, seed: Node, prev: map<Node, Node>, depth: map<Node, nat>, q: seq<Node>, open: set<Node>, level: nat)
    requires Searching(g, seed, prev, depth, q, open, level)
    ensures Tree(g, seed, prev, depth) && Shortest(g, seed, depth)
  {
  }

  lemma ExhaustedExpanded(g: Graph, seed: Node, prev: map<Node, Node>, depth: map<Node, nat>, q: seq<Node>, level: nat)
    requires q == [] && Searching(g, seed, prev, depth, q, Waiting(q), level)
    ensures prev.Keys == depth.Keys && seed in depth && depth[seed] == 0 && Expanded(g, depth, {})
  {
    hide Shortest, Expanded, Next;
    assert Waiting(q) == {};
  }

  lemma SearchExhausted(
      g: Graph, seed: Node, prev: map<Node, Node>, depth: map<Node, nat>, q: seq<Node>, level: nat, target: Node)
    requires q == [] && Searching(g, seed, prev, depth, q, Waiting(q), level)
    ensures Tree(g, seed, prev, depth) && Shortest(g, seed, depth)
    ensures Descendant(g, seed, target) ==> target in prev
  {
    hide Path, Shortest, Frontier, Next, Searching, Tree, Expanded, Waiting;
    SearchingTree(g, seed, prev, depth, q, Waiting(q), level);
    ExhaustedExpanded(g, seed, prev, depth, q, level);
    if Descendant(g, seed, target) {
      var p :| Path(g, seed, target, p) && |p| >= 2;
      ShortWalkInTree(g, seed, depth, {}, |p|, target, p);
    }
  }

  lemma TreeIsReachable(g: Graph, seed: Node, prev: map<Node, Node>, depth: map<Node, nat>, n: Node)
    requires Tree(g, seed, prev, depth)
    ensures n in prev ==> n == seed || Descendant(g, seed, n)
  {
    if n in prev && n != seed {
      var p := Traced(g, seed, prev, depth, n);
    }
  }

  /** The tree path to a node: each node but the seed comes after its predecessor. */
  lemma {:induction false} Traced(g: Graph, seed: Node, prev: map<Node, Node>, depth: map<Node, nat>, n: Node)
    returns (p: seq<Node>)
    requires Tree(g, seed, prev, depth) && n in prev
    ensures Path(g, seed, n, p) && |p| == depth[n] + 1 && FollowsTree(seed, prev, p)
    decreases depth[n]
  {
    hide Next, FollowsTree;
    if n == seed {
      p := [seed];
      assert FollowsTree(seed, prev, p) by { FollowsSeed(seed, prev); }
    } else {
      var front := Traced(g, seed, prev, depth, prev[n]);
      PathExtend(g, seed, prev[n], n, front);
      FollowsAppend(seed, prev, front, n);
      p := front + [n];
    }
  }

  lemma FollowsSeed(seed: Node, prev: map<Node, Node>)
    requires seed in prev && prev[seed] == NoId
    ensures FollowsTree(seed, prev, [seed])
  {
  }

  lemma FollowsAppend(seed: Node, prev: map<Node, Node>, p: seq<Node>, n: Node)
    requires FollowsTree(seed, prev, p) && n in prev && n != seed && prev[n] == p[|p| - 1]
    ensures FollowsTree(seed, prev, p + [n])
  {
    var q := p + [n];
    forall i | 0 < i < |q| ensures q[i] in prev && q[i] != seed && prev[q[i]] == q[i - 1] {
      if i < |p| { assert q[i] == p[i] && q[i - 1] == p[i - 1]; }
    }
  }

  ghost predicate FollowsTree(seed: Node, prev: map<Node, Node>, p: seq<Node>) {
    && p != [] && p[0] == seed && seed in prev && prev[seed] == NoId
    && forall i :: 0 < i < |p| ==> p[i] in prev && p[i] != seed && prev[p[i]] == p[i - 1]
  }

  /** `path` is what is left of `full` when it is cut after its last null id. */
  ghost predicate CutAtNull(full: seq<Node>, path: seq<Node>) {
    NoId !in path &&
    exists k :: 0 <= k <= |full| && path == full[k..] && (k > 0 ==> full[k - 1] == NoId)
  }

  /** The trace so far: the end of the path, backwards, and the node before it. */
  ghost predicate Tracing(full: seq<Node>, back: seq<Node>, cur: Node) {
    && |back| <= |full| && NoId !in back && Reversed(back) == full[|full| - |back|..]
    && cur == if |back| < |full| then full[|full| - |back| - 1] else NoId
  }

  lemma StartTracing(full: seq<Node>, target: Node)
    requires full != [] && full[|full| - 1] == target
    ensures Tracing(full, [], target)
  {
  }

  lemma TraceStep(full: seq<Node>, seed: Node, prev: map<Node, Node>, back: seq<Node>, cur: Node)
    requires FollowsTree(seed, prev, full) && Tracing(full, back, cur) && cur != NoId && cur in prev
    ensures |back| < |full| && Tracing(full, back + [cur], prev[cur])
  {
    assert (back + [cur])[..|back|] == back;
    assert full[|full| - |back| - 1..] == [cur] + full[|full| - |back|..];
  }

  /** The second loop of analyze: following predecessors back. It stops at the seed, whose
      predecessor is None, and just as well at any other node whose predecessor is the null id. So
      it returns the first shortest path, cut after its last null id, and flags it as causal exactly
      when there was nothing to cut. */
  method TracePath(g: Graph, seed: Node, target: Node)
    returns (path: seq<Node>, causal: bool, ghost full: seq<Node>)
    ensures target != seed && !Descendant(g, seed, target) ==> path == [] && !causal
    ensures target == seed || Descendant(g, seed, target) ==>
      FirstShortest(g, seed, target, full) && CutAtNull(full, path) && (causal <==> NoId !in full)
    ensures causal ==> path == full
  {
    hide Path, Shortest, Tree, FollowsTree, Reversed, Tracing, CutAtNull, Descendant, First, Discovery;
    var prev: map<Node, Node>;
    ghost var depth: map<Node, nat>;
    ghost var order: seq<Node>;
    ghost var par: seq<nat>;
    prev, depth, order, par := Predecessors(g, seed, target);
    full := [];
    if target in prev {
      full := Traced(g, seed, prev, depth, target);
      TreeKeys(g, seed, prev, depth);
      TracedIsShortest(g, seed, prev, depth, target, full);
      TracedIsFirst(g, seed, prev, order, par, target, full);
      PathEnds(g, seed, target, full);
      StartTracing(full, target);
    }
    var back: seq<Node> := [];
    var cur := target;
    while cur != NoId && cur in prev
      invariant target !in prev ==> back == [] && cur == target
      invariant target in prev ==> Tracing(full, back, cur)
      decreases |full| - |back|
    {
      TraceStep(full, seed, prev, back, cur);
      back := back + [cur];
      cur := prev[cur];
    }
    path := Reversed(back);
    causal := path != [] && path[0] == seed;
    if target in prev { CutIsExact(full, seed, prev, back, cur); }
  }

  /** The trace stopped at the null id or ran out of path. */
  lemma CutIsExact(full: seq<Node>, seed: Node, prev: map<Node, Node>, back: seq<Node>, cur: Node)
    requires FollowsTree(seed, prev, full) && Tracing(full, back, cur) && !(cur != NoId && cur in prev)
    ensures CutAtNull(full, Reversed(back))
    ensures back != [] && Reversed(back)[0] == seed <==> NoId !in full
    ensures NoId !in full ==> Reversed(back) == full
  {
    ReversedMembers(back);
    var k := |full| - |back|;
    assert Reversed(back) == full[k..];
    if k > 0 {
      assert full[k - 1] in full;
    } else {
      assert full[0..] == full;
    }
  }

  lemma PathEnds(g: Graph, s: Node, t: Node, p: seq<Node>)
    requires Path(g, s, t, p)
    ensures p != [] && p[0] == s && p[|p| - 1] == t
  {
  }

  lemma TracedIsShortest(
      g: Graph, seed: Node, prev: map<Node, Node>, depth: map<Node, nat>, target: Node, path: seq<Node>)
    requires Tree(g, seed, prev, depth) && Shortest(g, seed, depth) && target in depth && |path| == depth[target] + 1
    ensures forall p :: Path(g, seed, target, p) ==> |path| <= |p|
  {
  }

  /** A path that was cut continues from an edge out of the null id; without such an edge nothing
      is cut. */
  lemma CutFollowsNull(g: Graph, seed: Node, target: Node, full: seq<Node>, path: seq<Node>)
    requires Path(g, seed, target, full) && CutAtNull(full, path) && NoId in full && target != NoId
    ensures path != [] && path[0] in Next(g, NoId)
  {
    var k :| 0 <= k <= |full| && path == full[k..] && (k > 0 ==> full[k - 1] == NoId);
    assert k == 0 ==> path == full;
    assert full[k] in Next(g, full[k - 1]);
  }

  /** It does happen: an event without an id between the seed and a consequence cuts the only path
      there is. */
  lemma NullIdCutsThePath()
    ensures var g := map[Id("s") := [NoId], NoId := [Id("c")]];
      Descendant(g, Id("s"), Id("c")) &&
      forall full, path :: Path(g, Id("s"), Id("c"), full) && CutAtNull(full, path) ==>
        NoId in full && path == [Id("c")]
  {
    var g := map[Id("s") := [NoId], NoId := [Id("c")]];
    assert Path(g, Id("s"), Id("c"), [Id("s"), NoId, Id("c")]);
    forall full, path | Path(g, Id("s"), Id("c"), full) && CutAtNull(full, path)
      ensures NoId in full && path == [Id("c")]
    {
      assert full[1] in Next(g, full[0]);
      assert full[1] == NoId && full[2] in Next(g, full[1]);
      forall i | 0 <= i < |full| - 1 ensures full[i] != Id("c") { assert full[i + 1] in Next(g, full[i]); }
      assert full == [Id("s"), NoId, Id("c")];
      var k :| 0 <= k <= |full| && path == full[k..] && (k > 0 ==> full[k - 1] == NoId);
      assert k == 0 ==> path == full;
    }
  }

  function Reversed(s: seq<Node>): (r: seq<Node>)
    ensures |r| == |s|
  {
    if s == [] then [] else [s[|s| - 1]] + Reversed(s[..|s| - 1])
  }

  lemma {:induction false} ReversedMembers(s: seq<Node>)
    ensures forall x :: x in Reversed(s) <==> x in s
  {
    if s != [] {
      var n := |s| - 1;
      ReversedMembers(s[..n]);
      assert s == s[..n] + [s[n]];
    }
  }
}
