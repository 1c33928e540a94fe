/** Prerequisite graphs: walks, cycles and longest prerequisite chains.

    A graph maps each node to the list of its prerequisites, duplicates included. A walk follows
    prerequisites, so it starts at the dependent and ends at something it transitively needs. */
module Digraph {

  type Node = string

  type Prereqs = map<Node, seq<Node>>

  /** Every prerequisite is itself a node. */
  ghost predicate Closed(g: Prereqs) {
    forall n, p | n in g && p in g[n] :: p in g
  }

  ghost predicate IsWalk(g: Prereqs, w: seq<Node>) {
    && |w| > 0
    && w[0] in g
    && (|w| > 1 ==> w[1] in g[w[0]] && IsWalk(g, w[1..]))
  }

  /** The last node of the walk occurs in it before. */
  ghost predicate Revisits(w: seq<Node>) {
    |w| > 0 && exists i :: 0 <= i < |w| - 1 && w[i] == w[|w| - 1]
  }

  /** Following prerequisites from `n` can run into a cycle. */
  ghost predicate ReachesCycle(g: Prereqs, n: Node) {
    exists w :: IsWalk(g, w) && w[0] == n && Revisits(w)
  }

  /** No walk of at least one step returns to where it started. */
  ghost predicate Acyclic(g: Prereqs) {
    forall w | IsWalk(g, w) && |w| > 1 :: w[0] != w[|w| - 1]
  }

  ghost predicate Grounded(g: Prereqs, n: Node) {
    n in g && !ReachesCycle(g, n)
  }

  ghost function GroundedNodes(g: Prereqs): (s: set<Node>) {
    set n | n in g && Grounded(g, n)
  }

  // ---- Walks ----

  lemma {:induction false} WalkSuffix(g: Prereqs, w: seq<Node>, i: nat)
    requires IsWalk(g, w) && i < |w|
    ensures IsWalk(g, w[i..])
    decreases i
  {
    if i == 0 {
      assert w[0..] == w;
    } else {
      WalkSuffix(g, w[1..], i - 1);
      assert w[1..][i - 1..] == w[i..];
    }
  }

  lemma {:induction false} WalkPrefix(g: Prereqs, w: seq<Node>, j: nat)
    requires IsWalk(g, w) && 0 < j <= |w|
    ensures IsWalk(g, w[..j])
    decreases |w|
  {
    if j == 1 {
      assert w[..1] == [w[0]];
    } else {
      WalkPrefix(g, w[1..], j - 1);
      assert w[..j][1..] == w[1..][..j - 1];
    }
  }

  /** Two walks that meet compose. */
  lemma {:induction false} WalkJoin(g: Prereqs, u: seq<Node>, v: seq<Node>)
    requires IsWalk(g, u) && IsWalk(g, v) && u[|u| - 1] == v[0]
    ensures IsWalk(g, u + v[1..])
    decreases |u|
  {
    var w := u + v[1..];
    if |u| == 1 {
      assert w == v;
    } else {
      WalkJoin(g, u[1..], v);
      assert w[1..] == u[1..] + v[1..];
    }
  }

  lemma WalkStep(g: Prereqs, w: seq<Node>, i: nat)
    requires IsWalk(g, w) && i < |w|
    ensures w[i] in g
    ensures i + 1 < |w| ==> w[i + 1] in g[w[i]]
  {
    WalkSuffix(g, w, i);
  }

  /** A walk that starts in a set closed under prerequisites stays in it. */
  lemma {:induction false} WalkStays(g: Prereqs, w: seq<Node>, s: set<Node>)
    requires IsWalk(g, w) && w[0] in s
    requires forall n, p | n in s && n in g && p in g[n] :: p in s
    ensures forall n | n in w :: n in s
    decreases |w|
  {
    if |w| > 1 {
      WalkStays(g, w[1..], s);
      assert w == [w[0]] + w[1..];
    }
  }

  // ---- Cycles ----

  /** Whatever needs a node that reaches a cycle reaches it too. */
  lemma CyclePropagates(g: Prereqs, n: Node, p: Node)
    requires n in g && p in g[n] && ReachesCycle(g, p)
    ensures ReachesCycle(g, n)
  {
    var w :| IsWalk(g, w) && w[0] == p && Revisits(w);
    var v := [n] + w;
    assert v[1..] == w;
    var i :| 0 <= i < |w| - 1 && w[i] == w[|w| - 1];
    assert v[i + 1] == v[|v| - 1];
    assert IsWalk(g, v) && Revisits(v);
  }

  /** A prerequisite of a node that cannot reach a cycle cannot reach one either. */
  lemma GroundedStep(g: Prereqs, n: Node, p: Node)
    requires Grounded(g, n) && p in g[n] && p in g
    ensures Grounded(g, p)
  {
    if ReachesCycle(g, p) {
      CyclePropagates(g, n, p);
    }
  }

  lemma RevisitClosesCycle(g: Prereqs, w: seq<Node>) returns (v: seq<Node>)
    requires IsWalk(g, w) && Revisits(w)
    ensures IsWalk(g, v) && |v| > 1 && v[0] == v[|v| - 1]
  {
    var i :| 0 <= i < |w| - 1 && w[i] == w[|w| - 1];
    WalkSuffix(g, w, i);
    v := w[i..];
  }

  lemma CycleIsReached(g: Prereqs, w: seq<Node>)
    requires IsWalk(g, w) && |w| > 1 && w[0] == w[|w| - 1]
    ensures ReachesCycle(g, w[0])
  {
    assert Revisits(w);
  }

  lemma AcyclicIffGrounded(g: Prereqs)
    ensures Acyclic(g) <==> forall n | n in g :: Grounded(g, n)
    ensures Acyclic(g) <==> GroundedNodes(g) == g.Keys
  {
    if !forall n | n in g :: Grounded(g, n) {
      var n :| n in g && !Grounded(g, n);
      var w :| IsWalk(g, w) && w[0] == n && Revisits(w);
      var v := RevisitClosesCycle(g, w);
    }
    if !Acyclic(g) {
      var w :| IsWalk(g, w) && |w| > 1 && w[0] == w[|w| - 1];
      CycleIsReached(g, w);
    }
    assert forall n | n in g :: Grounded(g, n) <==> n in GroundedNodes(g);
  }

  /** A sequence over a set it outgrows repeats an element. */
  lemma {:induction false} Pigeonhole(w: seq<Node>, s: set<Node>)
    returns (i: nat, j: nat)
    requires forall n | n in w :: n in s
    requires |w| > |s|
    ensures i < j < |w| && w[i] == w[j]
    decreases |w|
  {
    var last := |w| - 1;
    var rest := w[..last];
    if w[last] in rest {
      i :| 0 <= i < last && rest[i] == w[last];
      j := last;
    } else {
      assert |s - {w[last]}| == |s| - 1;
      i, j := Pigeonhole(rest, s - {w[last]});
    }
  }

  ghost predicate KeepsPrereq(g: Prereqs, s: set<Node>, n: Node) {
    n in g && exists p :: p in g[n] && p in s
  }

  lemma {:induction false} WalkInside(g: Prereqs, s: set<Node>, n: Node, k: nat) returns (w: seq<Node>)
    requires n in s && k > 0
    requires forall m | m in s :: KeepsPrereq(g, s, m)
    ensures IsWalk(g, w) && w[0] == n && |w| == k
    ensures forall m | m in w :: m in s
    decreases k
  {
    assert KeepsPrereq(g, s, n);
    if k == 1 {
      w := [n];
    } else {
      var p :| p in g[n] && p in s;
      var v := WalkInside(g, s, p, k - 1);
      w := [n] + v;
      assert w[1..] == v;
    }
  }

  /** Nodes that each keep a prerequisite among themselves all reach a cycle. */
  lemma TrappedReachesCycle(g: Prereqs, s: set<Node>, n: Node)
    requires n in s
    requires forall m | m in s :: KeepsPrereq(g, s, m)
    ensures ReachesCycle(g, n)
  {
    var w := WalkInside(g, s, n, |s| + 1);
    var i, j := Pigeonhole(w, s);
    WalkPrefix(g, w, j + 1);
    var v := w[..j + 1];
    assert v[i] == v[|v| - 1];
    assert v[0] == n;
  }

  /** In an acyclic graph every non-empty set of nodes has one with no prerequisite in the set. */
  lemma MinimalNode(g: Prereqs, s: set<Node>) returns (n: Node)
    requires Acyclic(g) && s <= g.Keys && s != {}
    ensures n in s && forall p | p in g[n] :: p !in s
  {
    AcyclicIffGrounded(g);
    n :| n in s;
    if forall m | m in s :: KeepsPrereq(g, s, m) {
      TrappedReachesCycle(g, s, n);
    } else {
      n :| n in s && !KeepsPrereq(g, s, n);
    }
  }

  /** Every element's prerequisites come before it. */
  ghost predicate Topological(g: Prereqs, order: seq<Node>) {
    forall i | 0 <= i < |order| :: order[i] in g && forall p | p in g[order[i]] :: p in order[..i]
  }

  /** A walk from a topological order never comes back to the position it left. */
  lemma {:induction false} TopologicalDescends(g: Prereqs, order: seq<Node>, i: nat, w: seq<Node>)
    requires Topological(g, order) && i < |order|
    requires IsWalk(g, w) && |w| > 1 && w[0] == order[i]
    ensures w[|w| - 1] in order[..i]
    decreases |w|
  {
    if |w| > 2 {
      var k :| 0 <= k < i && order[k] == w[1];
      TopologicalDescends(g, order, k, w[1..]);
      assert order[..k] <= order[..i];
    }
  }

  ghost predicate Distinct<T(!new)>(s: seq<T>) {
    forall i, j | 0 <= i < j < |s| :: s[i] != s[j]
  }

  lemma {:induction false} WalkStaysBefore(g: Prereqs, order: seq<Node>, i: nat, w: seq<Node>, a: nat)
    requires Topological(g, order) && i < |order| && IsWalk(g, w) && w[0] == order[i] && a < |w|
    ensures w[a] in order[..i + 1]
  {
    if a > 0 {
      WalkPrefix(g, w, a + 1);
      TopologicalDescends(g, order, i, w[..a + 1]);
    }
  }

  lemma TopologicalGrounded(g: Prereqs, order: seq<Node>, i: nat)
    requires Topological(g, order) && Distinct(order) && i < |order|
    ensures Grounded(g, order[i])
  {
    if ReachesCycle(g, order[i]) {
      var w :| IsWalk(g, w) && w[0] == order[i] && Revisits(w);
      var a :| 0 <= a < |w| - 1 && w[a] == w[|w| - 1];
      WalkStaysBefore(g, order, i, w, a);
      var k :| 0 <= k < i + 1 && order[k] == w[a];
      WalkSuffix(g, w, a);
      TopologicalDescends(g, order, k, w[a..]);
    }
  }

  /** What an exhausted topological sort leaves out is exactly what reaches a cycle. */
  lemma ExhaustedSortIsGrounded(g: Prereqs, order: seq<Node>)
    requires Topological(g, order) && Distinct(order)
    requires forall n | n in g && n !in order :: exists p :: p in g[n] && p in g && p !in order
    ensures (set n | n in order) == GroundedNodes(g)
  {
    var done := set n | n in order;
    forall n | n in done ensures n in GroundedNodes(g) {
      var i :| 0 <= i < |order| && order[i] == n;
      TopologicalGrounded(g, order, i);
    }
    forall n | n in g && n !in done ensures n !in GroundedNodes(g) {
      var s := g.Keys - done;
      forall m | m in s ensures KeepsPrereq(g, s, m) {
        var p :| p in g[m] && p in g && p !in order;
        assert p in s;
      }
      TrappedReachesCycle(g, s, n);
    }
  }

  // ---- Longest chains ----

  /** A walk whose every node after the first cannot reach a cycle. */
  ghost predicate SettledWalk(g: Prereqs, w: seq<Node>) {
    IsWalk(g, w) && (|w| > 1 ==> Grounded(g, w[1]))
  }

  /** `d` is the number of steps of the longest settled walk from `n`. */
  ghost predicate IsDepth(g: Prereqs, n: Node, d: nat) {
    && (exists w :: SettledWalk(g, w) && w[0] == n && |w| == d + 1)
    && (forall w | SettledWalk(g, w) && w[0] == n :: |w| <= d + 1)
  }

  lemma RepeatRevisits(w: seq<Node>, i: nat, j: nat)
    requires i < j < |w| && w[i] == w[j]
    ensures Revisits(w[..j + 1])
  {
    assert w[..j + 1][i] == w[..j + 1][j];
  }

  lemma SettledWalkBound(g: Prereqs, w: seq<Node>)
    requires SettledWalk(g, w)
    ensures |w| <= |g| + 1
  {
    if |w| > |g| + 1 {
      var v := w[1..];
      forall n | n in v ensures n in g {
        var i :| 0 <= i < |v| && v[i] == n;
        WalkStep(g, v, i);
      }
      var i, j := Pigeonhole(v, g.Keys);
      WalkPrefix(g, v, j + 1);
      RepeatRevisits(v, i, j);
    }
  }

  lemma {:induction false} DepthExists(g: Prereqs, n: Node, bound: nat) returns (d: nat)
    requires n in g
    requires forall w | SettledWalk(g, w) && w[0] == n :: |w| <= bound + 1
    ensures IsDepth(g, n, d)
    decreases bound
  {
    if exists w :: SettledWalk(g, w) && w[0] == n && |w| == bound + 1 {
      d := bound;
    } else {
      assert bound > 0 by {
        assert SettledWalk(g, [n]);
      }
      d := DepthExists(g, n, bound - 1);
    }
  }

  ghost function Depth(g: Prereqs, n: Node): (d: nat)
    requires n in g
    ensures IsDepth(g, n, d)
  {
    assert exists d: nat :: IsDepth(g, n, d) by {
      forall w | SettledWalk(g, w) && w[0] == n ensures |w| <= |g| + 1 {
        SettledWalkBound(g, w);
      }
      var d := DepthExists(g, n, |g|);
    }
    var d: nat :| IsDepth(g, n, d);
    d
  }

  lemma DepthUnique(g: Prereqs, n: Node, d: nat)
    requires n in g && IsDepth(g, n, d)
    ensures d == Depth(g, n)
  {
  }

  /** A longest settled walk from `n`. */
  lemma DeepestWalk(g: Prereqs, n: Node) returns (w: seq<Node>)
    requires n in g
    ensures SettledWalk(g, w) && w[0] == n && |w| == Depth(g, n) + 1
  {
    var d := Depth(g, n);
    assert IsDepth(g, n, d);
    w :| SettledWalk(g, w) && w[0] == n && |w| == d + 1;
  }

  /** In an acyclic graph the depth is the longest chain of prerequisites, with no side condition. */
  lemma AcyclicDepth(g: Prereqs, n: Node)
    requires Acyclic(g) && Closed(g) && n in g
    ensures exists w :: IsWalk(g, w) && w[0] == n && |w| == Depth(g, n) + 1
    ensures forall w | IsWalk(g, w) && w[0] == n :: |w| <= Depth(g, n) + 1
  {
    AcyclicIffGrounded(g);
    var deepest := DeepestWalk(g, n);
    forall w | IsWalk(g, w) && w[0] == n ensures SettledWalk(g, w) {
      if |w| > 1 {
        assert Grounded(g, w[1]);
      }
    }
  }

  /** A grounded prerequisite is strictly shallower. */
  lemma DepthStep(g: Prereqs, n: Node, p: Node)
    requires n in g && p in g[n] && Grounded(g, p) && Closed(g)
    ensures Depth(g, p) < Depth(g, n)
  {
    var w := DeepestWalk(g, p);
    var v := [n] + w;
    assert v[1..] == w;
    assert IsWalk(g, v);
    assert SettledWalk(g, v);
  }

  /** A node at positive depth has a prerequisite exactly one level above it. */
  lemma DepthParent(g: Prereqs, n: Node) returns (p: Node)
    requires n in g && Closed(g) && Depth(g, n) > 0
    ensures p in g[n] && Grounded(g, p) && Depth(g, p) == Depth(g, n) - 1
  {
    var w := DeepestWalk(g, n);
    p := w[1];
    var v := w[1..];
    if |v| > 1 {
      WalkStep(g, w, 1);
      WalkStep(g, w, 2);
      GroundedStep(g, v[0], v[1]);
    }
    assert SettledWalk(g, v);
    DepthStep(g, n, p);
  }

  // ---- Subgraphs that keep all prerequisites ----

  /** `h` is `g` cut down to some nodes together with everything they need. */
  ghost predicate IsClosedPart(g: Prereqs, h: Prereqs) {
    && h.Keys <= g.Keys
    && (forall n | n in h :: h[n] == g[n])
    && Closed(h)
  }

  lemma {:induction false} PartWalks(g: Prereqs, h: Prereqs, w: seq<Node>)
    requires IsClosedPart(g, h)
    ensures IsWalk(h, w) <==> IsWalk(g, w) && w[0] in h
    decreases |w|
  {
    if |w| > 1 {
      PartWalks(g, h, w[1..]);
    }
  }

  lemma PartReachesCycle(g: Prereqs, h: Prereqs, n: Node)
    requires IsClosedPart(g, h) && n in h
    ensures ReachesCycle(h, n) <==> ReachesCycle(g, n)
  {
    forall w ensures IsWalk(h, w) <==> IsWalk(g, w) && w[0] in h {
      PartWalks(g, h, w);
    }
    if ReachesCycle(g, n) {
      var w :| IsWalk(g, w) && w[0] == n && Revisits(w);
      assert IsWalk(h, w);
    }
  }

  lemma PartAcyclic(g: Prereqs, h: Prereqs)
    requires IsClosedPart(g, h) && Acyclic(g)
    ensures Acyclic(h)
  {
    forall w | IsWalk(h, w) && |w| > 1 ensures w[0] != w[|w| - 1] {
      PartWalks(g, h, w);
    }
  }

  /** Cutting away what a node does not need leaves its depth alone. */
  lemma PartDepth(g: Prereqs, h: Prereqs, n: Node)
    requires IsClosedPart(g, h) && n in h
    ensures Depth(h, n) == Depth(g, n)
  {
    forall w | |w| > 0 && w[0] == n ensures SettledWalk(h, w) <==> SettledWalk(g, w) {
      PartWalks(g, h, w);
      if IsWalk(h, w) && |w| > 1 {
        PartReachesCycle(g, h, w[1]);
      }
    }
    var v := DeepestWalk(g, n);
    var w := DeepestWalk(h, n);
    assert SettledWalk(h, v) && SettledWalk(g, w);
  }
}
