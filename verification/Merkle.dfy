/** The Merkle root of an anchor: sorted leaves, an odd last node doubled. */
module Merkle {
  import opened Encodings
  import opened Sorting

  /** SHA-256 gives thirty-two bytes. */
  ghost predicate Digests32(h: Bytes -> Bytes) { forall x :: |h(x)| == 32 }

  function Padded(nodes: seq<Bytes>): (r: seq<Bytes>)
    requires nodes != []
    ensures |r| % 2 == 0 && |nodes| <= |r| <= |nodes| + 1
  {
    if |nodes| % 2 == 1 then nodes + [nodes[|nodes| - 1]] else nodes
  }

  function Pair(nodes: seq<Bytes>, i: nat): (m: Bytes)
    requires 2 * i + 1 < |nodes|
  {
    nodes[2 * i] + nodes[2 * i + 1]
  }

  function NextLevel(h: Bytes -> Bytes, nodes: seq<Bytes>): (r: seq<Bytes>)
    requires |nodes| % 2 == 0
    ensures |r| == |nodes| / 2
  {
    seq(|nodes| / 2, i requires 0 <= i < |nodes| / 2 => h(Pair(nodes, i)))
  }

  function Top(h: Bytes -> Bytes, nodes: seq<Bytes>): (r: Bytes)
    requires nodes != []
    decreases |nodes|
  {
    if |nodes| == 1 then nodes[0] else Top(h, NextLevel(h, Padded(nodes)))
  }

  function LeafNodes(h: Bytes -> Bytes, leaves: seq<string>): (r: seq<Bytes>)
    ensures |r| == |leaves| && forall i :: 0 <= i < |leaves| ==> r[i] == h(Utf8(leaves[i]))
  {
    seq(|leaves|, i requires 0 <= i < |leaves| => h(Utf8(leaves[i])))
  }

  function Root(h: Bytes -> Bytes, leaves: seq<string>): (r: Bytes) {
    if leaves == [] then h([]) else Top(h, LeafNodes(h, Sort(CodePointLe, leaves)))
  }

  lemma TopStep(h: Bytes -> Bytes, nodes: seq<Bytes>)
    requires |nodes| > 1
    ensures Top(h, nodes) == Top(h, NextLevel(h, Padded(nodes)))
  {
  }

  method HashLevel(h: Bytes -> Bytes, nodes: seq<Bytes>) returns (level: seq<Bytes>)
    requires |nodes| % 2 == 0
    ensures level == NextLevel(h, nodes)
  {
    level := [];
    for i := 0 to |nodes| / 2
      invariant |level| == i && forall k :: 0 <= k < i ==> level[k] == NextLevel(h, nodes)[k]
    {
      assert NextLevel(h, nodes)[i] == h(Pair(nodes, i));
      level := level + [h(nodes[2 * i] + nodes[2 * i + 1])];
    }
  }

  method MerkleRoot(h: Bytes -> Bytes, leaves: seq<string>) returns (r: Bytes)
    ensures r == Root(h, leaves)
  {
    var nodes := LeafNodes(h, Sort(CodePointLe, leaves));
    if nodes == [] { return h([]); }
    hide Top, LeafNodes, Sort, NextLevel;
    while |nodes| > 1
      invariant nodes != [] && Top(h, nodes) == Root(h, leaves)
      decreases |nodes|
    {
      ghost var before := nodes;
      TopStep(h, nodes);
      if |nodes| % 2 == 1 { nodes := nodes + [nodes[|nodes| - 1]]; }
      assert nodes == Padded(before);
      nodes := HashLevel(h, nodes);
    }
    TopOfOne(h, nodes);
    r := nodes[0];
  }

  lemma TopOfOne(h: Bytes -> Bytes, nodes: seq<Bytes>)
    requires |nodes| == 1
    ensures Top(h, nodes) == nodes[0]
  {
  }

  // ---- The tree seen from its root ----

  /** The last place at a level above `n` nodes. */
  ghost function Last(n: nat, level: nat): (i: nat)
    requires n > 0
  {
    if level == 0 then n - 1 else Last(n, level - 1) / 2
  }

  /** The number of levels above `n` nodes. */
  ghost function Height(n: nat): (k: nat)
    requires n > 0
  {
    if n == 1 then 0 else 1 + Height((n + 1) / 2)
  }

  /** The place right of 2 * i, or the last one. */
  ghost function Right(n: nat, level: nat, i: nat): (j: nat)
    requires n > 0
    ensures j <= Last(n, level)
  {
    if 2 * i + 1 <= Last(n, level) then 2 * i + 1 else Last(n, level)
  }

  /** A node of the tree: the hash of the two below it, left before right, where the last one of a
      level stands in for a missing right one. */
  ghost function Node(h: Bytes -> Bytes, nodes: seq<Bytes>, level: nat, i: nat): (b: Bytes)
    requires nodes != [] && i <= Last(|nodes|, level)
    decreases level
  {
    if level == 0 then nodes[i]
    else h(Node(h, nodes, level - 1, 2 * i) + Node(h, nodes, level - 1, Right(|nodes|, level - 1, i)))
  }

  lemma {:induction false} LastShift(n: nat, level: nat)
    requires n > 0
    ensures Last(n, level + 1) == Last((n + 1) / 2, level)
    decreases level
  {
    if level > 0 { LastShift(n, level - 1); }
  }

  lemma FirstLevel(h: Bytes -> Bytes, nodes: seq<Bytes>, i: nat)
    requires nodes != [] && i <= Last(|nodes|, 1)
    ensures var up := NextLevel(h, Padded(nodes));
      |up| == (|nodes| + 1) / 2 && i < |up| && up[i] == Node(h, nodes, 1, i)
  {
    var p := Padded(nodes);
    assert Last(|nodes|, 0) == |nodes| - 1;
    assert NextLevel(h, p)[i] == h(Pair(p, i));
  }

  lemma NodeStep(h: Bytes -> Bytes, nodes: seq<Bytes>, level: nat, i: nat)
    requires nodes != [] && i <= Last(|nodes|, level + 1)
    ensures 2 * i <= Last(|nodes|, level)
    ensures Node(h, nodes, level + 1, i) ==
      h(Node(h, nodes, level, 2 * i) + Node(h, nodes, level, Right(|nodes|, level, i)))
  {
  }

  lemma {:induction false} NodeShift(h: Bytes -> Bytes, nodes: seq<Bytes>, level: nat, i: nat)
    requires nodes != [] && i <= Last(|nodes|, level + 1)
    ensures |NextLevel(h, Padded(nodes))| == (|nodes| + 1) / 2 && i <= Last((|nodes| + 1) / 2, level)
    ensures Node(h, nodes, level + 1, i) == Node(h, NextLevel(h, Padded(nodes)), level, i)
    decreases level
  {
    hide NextLevel, Padded, Last;
    LastShift(|nodes|, level);
    if level == 0 {
      FirstLevel(h, nodes, i);
    } else {
      var up := NextLevel(h, Padded(nodes));
      LastShift(|nodes|, level - 1);
      NodeStep(h, nodes, level, i);
      NodeShift(h, nodes, level - 1, 2 * i);
      NodeShift(h, nodes, level - 1, Right(|nodes|, level, i));
      NodeStep(h, up, level - 1, i);
    }
  }

  lemma {:induction false} TopIsNode(h: Bytes -> Bytes, nodes: seq<Bytes>)
    requires nodes != []
    ensures Last(|nodes|, Height(|nodes|)) == 0 && Top(h, nodes) == Node(h, nodes, Height(|nodes|), 0)
    decreases |nodes|
  {
    if |nodes| > 1 {
      var up := NextLevel(h, Padded(nodes));
      TopIsNode(h, up);
      LastShift(|nodes|, Height(|up|));
      NodeShift(h, nodes, Height(|up|), 0);
    }
  }

  /** The root is the top of the tree over the hashes of the leaves in ascending order. */
  lemma RootIsTree(h: Bytes -> Bytes, leaves: seq<string>) returns (sorted: seq<string>, hashes: seq<Bytes>)
    requires leaves != []
    ensures multiset(sorted) == multiset(leaves) && SortedBy(CodePointLe, sorted)
    ensures |hashes| == |sorted| == |leaves| && forall i :: 0 <= i < |sorted| ==> hashes[i] == h(Utf8(sorted[i]))
    ensures Last(|hashes|, Height(|hashes|)) == 0 && Root(h, leaves) == Node(h, hashes, Height(|hashes|), 0)
  {
    sorted := Sort(CodePointLe, leaves);
    hashes := LeafNodes(h, sorted);
    CodePointOrderIsTotal();
    SortSorts(CodePointLe, leaves);
    TopIsNode(h, hashes);
  }

  // ---- The root depends on the multiset of leaves, and fixes it ----

  lemma RootOfPermutation(h: Bytes -> Bytes, a: seq<string>, b: seq<string>)
    requires multiset(a) == multiset(b)
    ensures Root(h, a) == Root(h, b)
  {
    CodePointOrderIsTotal();
    SortDependsOnMultiset(CodePointLe, a, b);
    assert |multiset(a)| == |a| && |multiset(b)| == |b|;
  }

  /** Everything that is hashed above the leaves. */
  function InnerMessages(h: Bytes -> Bytes, nodes: seq<Bytes>): (s: set<Bytes>)
    requires nodes != []
    decreases |nodes|
  {
    if |nodes| == 1 then {}
    else
      var p := Padded(nodes);
      (set i | 0 <= i < |p| / 2 :: Pair(p, i)) + InnerMessages(h, NextLevel(h, p))
  }

  /** Everything that is hashed on the way to a root. */
  function Messages(h: Bytes -> Bytes, leaves: seq<string>): (s: set<Bytes>) {
    if leaves == [] then {[]}
    else (set x | x in leaves :: Utf8(x)) + InnerMessages(h, LeafNodes(h, Sort(CodePointLe, leaves)))
  }

  ghost predicate Collide(h: Bytes -> Bytes, s: set<Bytes>, t: set<Bytes>) {
    exists x, y :: x in s && y in t && x != y && h(x) == h(y)
  }

  ghost predicate All32(nodes: seq<Bytes>) { forall i :: 0 <= i < |nodes| ==> |nodes[i]| == 32 }

  ghost predicate PairsCollide(h: Bytes -> Bytes, p: seq<Bytes>, q: seq<Bytes>)
    requires |p| == |q|
  {
    exists i :: 0 <= i < |p| / 2 && Pair(p, i) != Pair(q, i) && h(Pair(p, i)) == h(Pair(q, i))
  }

  lemma LevelAll32(h: Bytes -> Bytes, p: seq<Bytes>)
    requires Digests32(h) && |p| % 2 == 0
    ensures All32(NextLevel(h, p))
  {
    forall i | 0 <= i < |NextLevel(h, p)| ensures |NextLevel(h, p)[i]| == 32 {
      assert NextLevel(h, p)[i] == h(Pair(p, i));
    }
  }

  lemma EqualLevels(h: Bytes -> Bytes, a: seq<Bytes>, b: seq<Bytes>)
    requires a != [] && |a| == |b| && All32(a) && All32(b)
    requires NextLevel(h, Padded(a)) == NextLevel(h, Padded(b))
    ensures a == b || PairsCollide(h, Padded(a), Padded(b))
  {
    var p, q := Padded(a), Padded(b);
    forall i | 0 <= i < |p| / 2 ensures h(Pair(p, i)) == h(Pair(q, i)) {
      assert NextLevel(h, p)[i] == NextLevel(h, q)[i];
    }
    if forall i :: 0 <= i < |p| / 2 ==> Pair(p, i) == Pair(q, i) {
      forall k | 0 <= k < |a| ensures a[k] == b[k] {
        assert Pair(p, k / 2) == Pair(q, k / 2);
        SplitAtLength(p[2 * (k / 2)], q[2 * (k / 2)], p[2 * (k / 2) + 1], q[2 * (k / 2) + 1]);
      }
    }
  }

  lemma {:induction false} EqualTops(h: Bytes -> Bytes, a: seq<Bytes>, b: seq<Bytes>)
    requires Digests32(h) && a != [] && |a| == |b| && All32(a) && All32(b) && Top(h, a) == Top(h, b)
    ensures a == b || Collide(h, InnerMessages(h, a), InnerMessages(h, b))
    decreases |a|
  {
    if |a| == 1 {
      assert a == [a[0]] && b == [b[0]];
    } else {
      var p, q := Padded(a), Padded(b);
      var c, d := NextLevel(h, p), NextLevel(h, q);
      LevelAll32(h, p);
      LevelAll32(h, q);
      EqualTops(h, c, d);
      if c == d {
        EqualLevels(h, a, b);
        if a != b {
          var i :| 0 <= i < |p| / 2 && Pair(p, i) != Pair(q, i) && h(Pair(p, i)) == h(Pair(q, i));
          assert Pair(p, i) in InnerMessages(h, a) && Pair(q, i) in InnerMessages(h, b);
        }
      } else {
        var x, y :| x in InnerMessages(h, c) && y in InnerMessages(h, d) && x != y && h(x) == h(y);
        assert x in InnerMessages(h, a) && y in InnerMessages(h, b);
      }
    }
  }

  /** With as many leaves, the same root means the same leaves, or the hash function failed on
      two messages that were hashed for these roots. */
  lemma RootFixesLeaves(h: Bytes -> Bytes, a: seq<string>, b: seq<string>)
    requires Digests32(h) && |a| == |b| && Root(h, a) == Root(h, b)
    ensures multiset(a) == multiset(b) || Collide(h, Messages(h, a), Messages(h, b))
  {
    hide InnerMessages, Top, Sort, Messages, LeafNodes, CodePointLe;
    if a != [] {
      var s, t := Sort(CodePointLe, a), Sort(CodePointLe, b);
      var m, n := LeafNodes(h, s), LeafNodes(h, t);
      SameTops(h, a, b);
      EqualTops(h, m, n);
      AreMessages(h, a);
      AreMessages(h, b);
      if m != n {
        var x, y :| x in InnerMessages(h, m) && y in InnerMessages(h, n) && x != y && h(x) == h(y);
        assert x in Messages(h, a) && y in Messages(h, b);
      } else if s != t {
        var i :| 0 <= i < |s| && s[i] != t[i];
        assert s[i] in multiset(s) && t[i] in multiset(t);
        assert s[i] in a && t[i] in b;
        assert h(Utf8(s[i])) == m[i] == n[i] == h(Utf8(t[i]));
        if Utf8(s[i]) == Utf8(t[i]) { Utf8Injective(s[i], t[i]); }
      }
    }
  }

  lemma SameTops(h: Bytes -> Bytes, a: seq<string>, b: seq<string>)
    requires Digests32(h) && a != [] && |a| == |b| && Root(h, a) == Root(h, b)
    ensures var m, n := LeafNodes(h, Sort(CodePointLe, a)), LeafNodes(h, Sort(CodePointLe, b));
      m != [] && |m| == |n| && All32(m) && All32(n) && Top(h, m) == Top(h, n)
  {
    hide Top, Sort, Utf8, CodePointLe, Collide;
    assert |Sort(CodePointLe, a)| == |a| && |Sort(CodePointLe, b)| == |b|;
  }

  lemma AreMessages(h: Bytes -> Bytes, leaves: seq<string>)
    requires leaves != []
    ensures InnerMessages(h, LeafNodes(h, Sort(CodePointLe, leaves))) <= Messages(h, leaves)
    ensures forall x :: x in leaves ==> Utf8(x) in Messages(h, leaves)
  {
    hide InnerMessages, Sort, LeafNodes, Utf8;
  }

  /** Why the count matters: from three leaves on, an odd list has the root of the list that
      repeats its greatest leaf. */
  lemma OddListsShareTheirRoot(h: Bytes -> Bytes, leaves: seq<string>)
    requires SortedBy(CodePointLe, leaves) && |leaves| % 2 == 1 && |leaves| >= 3
    ensures Root(h, leaves) == Root(h, leaves + [leaves[|leaves| - 1]])
  {
    hide CodePointLe, Sort, Top, TotalOrder, SortedBy, LeafNodes;
    var more := leaves + [leaves[|leaves| - 1]];
    CodePointOrderIsTotal();
    LastAgain(leaves);
    SortOfSorted(CodePointLe, leaves);
    SortOfSorted(CodePointLe, more);
    var m, n := LeafNodes(h, leaves), LeafNodes(h, more);
    assert n == Padded(m) == Padded(n);
    TopStep(h, m);
    TopStep(h, n);
  }

  lemma LastAgain(leaves: seq<string>)
    requires SortedBy(CodePointLe, leaves) && leaves != []
    ensures SortedBy(CodePointLe, leaves + [leaves[|leaves| - 1]])
  {
    hide CodePointLe;
    var more := leaves + [leaves[|leaves| - 1]];
    CodePointOrderIsTotal();
    forall i, j | 0 <= i < j < |more| ensures CodePointLe(more[i], more[j]) {
      assert CodePointLe(more[j], more[j]);
    }
  }
}
