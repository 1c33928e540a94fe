/** Depths along longest prerequisite chains, and what the planner's depth computation returns on
    graphs that still hold a cycle. */
module LongestPaths {
  import opened Digraph
  import opened Kahn

  /** The nodes that receive a depth: a node needs one settled prerequisite, not all of them. */
  ghost function DepthedNodes(g: Prereqs): (s: set<Node>) {
    set n | n in g && (g[n] == [] || exists p :: p in g[n] && Grounded(g, p))
  }

  ghost function DepthMap(g: Prereqs): (m: map<Node, nat>) {
    map n | n in DepthedNodes(g) :: Depth(g, n)
  }

  /** On an acyclic graph every node has a depth. */
  lemma AcyclicDepthsTotal(g: Prereqs)
    requires Acyclic(g) && Closed(g)
    ensures DepthMap(g).Keys == g.Keys
  {
    AcyclicIffGrounded(g);
    forall n | n in g ensures n in DepthedNodes(g) {
      if g[n] != [] {
        assert g[n][0] in g[n] && Grounded(g, g[n][0]);
      }
    }
  }

  // ---- What the loop maintains ----

  /** `n` already heard from its prerequisite `p`. */
  ghost predicate Heard(g: Prereqs, done: set<Node>, node: Node, seen: seq<Node>, n: Node, p: Node) {
    n in g && p in g[n] && (p in done || (p == node && n in seen))
  }

  ghost predicate HeardAny(g: Prereqs, done: set<Node>, node: Node, seen: seq<Node>, n: Node) {
    exists p :: Heard(g, done, node, seen, n, p)
  }

  ghost predicate Attained(g: Prereqs, done: set<Node>, node: Node, seen: seq<Node>, depth: map<Node, nat>, n: Node)
    requires n in depth
  {
    || (n in g && g[n] == [] && depth[n] == 0)
    || exists p :: Heard(g, done, node, seen, n, p) && p in depth && depth[n] == depth[p] + 1
  }

  ghost predicate DepthsSoFar(g: Prereqs, done: set<Node>, node: Node, seen: seq<Node>, depth: map<Node, nat>) {
    && depth.Keys <= g.Keys
    && (forall n {:trigger HeardAny(g, done, node, seen, n)} | n in g ::
          n in depth <==> g[n] == [] || HeardAny(g, done, node, seen, n))
    && (forall n, p | Heard(g, done, node, seen, n, p) :: n in depth && p in depth && depth[p] + 1 <= depth[n])
    && (forall n {:trigger Attained(g, done, node, seen, depth, n)} | n in depth ::
          Attained(g, done, node, seen, depth, n))
  }

  lemma HeardOneMore(g: Prereqs, done: set<Node>, node: Node, seen: seq<Node>, m: Node)
    requires m in g && node in g[m]
    ensures forall n, p :: Heard(g, done, node, seen + [m], n, p) <==>
                           Heard(g, done, node, seen, n, p) || (n == m && p == node)
  {
    forall n, p ensures Heard(g, done, node, seen + [m], n, p) <==>
                        Heard(g, done, node, seen, n, p) || (n == m && p == node)
    {
    }
  }

  lemma DepthedOneMore(g: Prereqs, done: set<Node>, node: Node, seen: seq<Node>, m: Node, depth: map<Node, nat>, d: nat)
    requires DepthsSoFar(g, done, node, seen, depth) && m in g && node in g[m]
    ensures forall n | n in g :: n in depth[m := d] <==> g[n] == [] || HeardAny(g, done, node, seen + [m], n)
  {
    HeardOneMore(g, done, node, seen, m);
    assert Heard(g, done, node, seen + [m], m, node);
    forall n | n in g ensures n in depth[m := d] <==> g[n] == [] || HeardAny(g, done, node, seen + [m], n) {
      DepthedMeaning(g, done, node, seen, depth, n);
      if HeardAny(g, done, node, seen, n) {
        var p :| Heard(g, done, node, seen, n, p);
        assert Heard(g, done, node, seen + [m], n, p);
      }
    }
  }

  lemma HearFromNode(g: Prereqs, done: set<Node>, node: Node, seen: seq<Node>, m: Node, depth: map<Node, nat>)
    requires DepthsSoFar(g, done, node, seen, depth)
    requires node in depth && node !in done && m in g && node in g[m] && m !in done && m != node
    ensures var best := if m in depth && depth[m] > depth[node] + 1 then depth[m] else depth[node] + 1;
            DepthsSoFar(g, done, node, seen + [m], depth[m := best])
  {
    var best := if m in depth && depth[m] > depth[node] + 1 then depth[m] else depth[node] + 1;
    var depth', seen' := depth[m := best], seen + [m];
    HeardOneMore(g, done, node, seen, m);
    DepthedOneMore(g, done, node, seen, m, depth, best);
    forall n | n in depth' ensures Attained(g, done, node, seen', depth', n) {
      if n == m && best == depth[node] + 1 {
        assert Heard(g, done, node, seen', m, node);
      } else {
        assert Attained(g, done, node, seen, depth, n);
        if !(g[n] == [] && depth[n] == 0) {
          var p :| Heard(g, done, node, seen, n, p) && p in depth && depth[n] == depth[p] + 1;
          assert Heard(g, done, node, seen', n, p);
        }
      }
    }
  }

  /** The facts depend only on who heard from whom. */
  lemma SameHeard(g: Prereqs, done: set<Node>, node: Node, seen: seq<Node>, done': set<Node>, node': Node,
                  seen': seq<Node>, depth: map<Node, nat>)
    requires DepthsSoFar(g, done, node, seen, depth)
    requires forall n, p :: Heard(g, done', node', seen', n, p) <==> Heard(g, done, node, seen, n, p)
    ensures DepthsSoFar(g, done', node', seen', depth)
  {
    forall n | n in g ensures HeardAny(g, done', node', seen', n) <==> HeardAny(g, done, node, seen, n) {
      if HeardAny(g, done, node, seen, n) {
        var p :| Heard(g, done, node, seen, n, p);
        assert Heard(g, done', node', seen', n, p);
      }
    }
    forall n | n in depth ensures Attained(g, done', node', seen', depth, n) {
      assert Attained(g, done, node, seen, depth, n);
      if !(g[n] == [] && depth[n] == 0) {
        var p :| Heard(g, done, node, seen, n, p) && p in depth && depth[n] == depth[p] + 1;
        assert Heard(g, done', node', seen', n, p);
      }
    }
  }

  /** Once all dependents of `node` heard from it, it counts as done. */
  lemma AllHeard(g: Prereqs, done: set<Node>, node: Node, adj: seq<Node>, depth: map<Node, nat>, node': Node)
    requires DepthsSoFar(g, done, node, adj, depth)
    requires node in g && Dependents(g, node, adj)
    ensures DepthsSoFar(g, done + {node}, node', [], depth)
  {
    forall n, p ensures Heard(g, done + {node}, node', [], n, p) <==> Heard(g, done, node, adj, n, p) {
      if n in g {
        CountPositive(adj, n);
        CountPositive(g[n], node);
      }
    }
    SameHeard(g, done, node, adj, done + {node}, node', [], depth);
  }

  // ---- What it leaves behind ----

  lemma {:induction false} DepthBoundsWalks(g: Prereqs, depth: map<Node, nat>, node: Node, w: seq<Node>)
    requires Closed(g) && DepthsSoFar(g, GroundedNodes(g), node, [], depth)
    requires SettledWalk(g, w) && w[0] in depth
    ensures |w| <= depth[w[0]] + 1
    decreases |w|
  {
    if |w| > 1 {
      assert Heard(g, GroundedNodes(g), node, [], w[0], w[1]);
      var v := w[1..];
      if |v| > 1 {
        WalkStep(g, w, 1);
        GroundedStep(g, v[0], v[1]);
      }
      DepthBoundsWalks(g, depth, node, v);
    }
  }

  lemma {:induction false} DepthHasWalk(g: Prereqs, depth: map<Node, nat>, node: Node, n: Node) returns (w: seq<Node>)
    requires Closed(g) && DepthsSoFar(g, GroundedNodes(g), node, [], depth) && n in depth
    ensures SettledWalk(g, w) && w[0] == n && |w| == depth[n] + 1
    decreases depth[n]
  {
    assert Attained(g, GroundedNodes(g), node, [], depth, n);
    if g[n] == [] && depth[n] == 0 {
      w := [n];
    } else {
      var p :| Heard(g, GroundedNodes(g), node, [], n, p) && p in depth && depth[n] == depth[p] + 1;
      var v := DepthHasWalk(g, depth, node, p);
      w := [n] + v;
      assert w[1..] == v;
    }
  }

  lemma DepthedMeaning(g: Prereqs, done: set<Node>, node: Node, seen: seq<Node>, depth: map<Node, nat>, n: Node)
    requires DepthsSoFar(g, done, node, seen, depth) && n in g
    ensures n in depth <==> g[n] == [] || HeardAny(g, done, node, seen, n)
  {
    if HeardAny(g, done, node, seen, n) {
    }
  }

  lemma FinalDepths(g: Prereqs, depth: map<Node, nat>, node: Node)
    requires Closed(g) && DepthsSoFar(g, GroundedNodes(g), node, [], depth)
    ensures depth == DepthMap(g)
  {
    forall n | n in g ensures n in depth <==> n in DepthedNodes(g) {
      DepthedMeaning(g, GroundedNodes(g), node, [], depth, n);
      if exists p :: p in g[n] && Grounded(g, p) {
        var p :| p in g[n] && Grounded(g, p);
        assert Heard(g, GroundedNodes(g), node, [], n, p);
      }
    }
    assert depth.Keys == DepthMap(g).Keys;
    forall n | n in depth ensures depth[n] == Depth(g, n) {
      var w := DepthHasWalk(g, depth, node, n);
      forall v | SettledWalk(g, v) && v[0] == n ensures |v| <= depth[n] + 1 {
        DepthBoundsWalks(g, depth, node, v);
      }
      DepthUnique(g, n, depth[n]);
    }
  }

  // ---- _longest_path_depths ----

  /** The prerequisite lists of the first `i` nodes and `j` entries of the next. */
  ghost function PartialPrereqs(nodes: seq<Node>, g: Prereqs, i: nat, j: nat): Prereqs
    requires i <= |nodes| && (forall n | n in nodes :: n in g)
    requires if i < |nodes| then j <= |g[nodes[i]]| else j == 0
  {
    map n | n in g :: if n in nodes[..i] then g[n] else if i < |nodes| && n == nodes[i] then g[n][..j] else []
  }

  lemma PartialPrereqsNext(nodes: seq<Node>, g: Prereqs, i: nat)
    requires i < |nodes| && forall n | n in nodes :: n in g
    ensures PartialPrereqs(nodes, g, i, |g[nodes[i]]|) == PartialPrereqs(nodes, g, i + 1, 0)
  {
    var n := nodes[i];
    assert g[n][..|g[n]|] == g[n];
    assert nodes[..i + 1] == nodes[..i] + [n];
    forall m | m in g ensures PartialPrereqs(nodes, g, i, |g[n]|)[m] == PartialPrereqs(nodes, g, i + 1, 0)[m] {
    }
  }

  lemma PartialPrereqsEdge(nodes: seq<Node>, g: Prereqs, i: nat, j: nat)
    requires i < |nodes| && Distinct(nodes) && (forall n | n in nodes :: n in g) && j < |g[nodes[i]]|
    ensures var p, n := PartialPrereqs(nodes, g, i, j), nodes[i];
            PartialPrereqs(nodes, g, i, j + 1) == p[n := p[n] + [g[n][j]]]
  {
    var n := nodes[i];
    assert n !in nodes[..i];
    assert g[n][..j + 1] == g[n][..j] + [g[n][j]];
  }

  lemma NothingLinked(nodes: seq<Node>, g: Prereqs, adjacency: Prereqs, inDegree: map<Node, int>)
    requires forall n :: n in nodes <==> n in g
    requires adjacency.Keys == inDegree.Keys == g.Keys
    requires forall n | n in g :: adjacency[n] == [] && inDegree[n] == 0
    ensures Linked(PartialPrereqs(nodes, g, 0, 0), adjacency, inDegree)
  {
    forall n | n in g ensures PartialPrereqs(nodes, g, 0, 0)[n] == [] {
    }
  }

  lemma EverythingLinked(nodes: seq<Node>, g: Prereqs)
    requires forall n :: n in nodes <==> n in g
    ensures PartialPrereqs(nodes, g, |nodes|, 0) == g
  {
    assert nodes[..|nodes|] == nodes;
    forall n | n in g ensures PartialPrereqs(nodes, g, |nodes|, 0)[n] == g[n] {
    }
  }

  method LinkPrereqs(nodes: seq<Node>, prerequisites: Prereqs)
    returns (adjacency: Prereqs, inDegree: map<Node, int>)
    requires Distinct(nodes) && (forall n :: n in nodes <==> n in prerequisites) && Closed(prerequisites)
    ensures Linked(prerequisites, adjacency, inDegree)
  {
    adjacency := map n | n in prerequisites :: [];
    inDegree := map n | n in prerequisites :: 0;
    NothingLinked(nodes, prerequisites, adjacency, inDegree);
    ghost var g := PartialPrereqs(nodes, prerequisites, 0, 0);
    for i := 0 to |nodes|
      invariant g == PartialPrereqs(nodes, prerequisites, i, 0)
      invariant Linked(g, adjacency, inDegree)
    {
      var node := nodes[i];
      assert node in nodes;
      for j := 0 to |prerequisites[node]|
        invariant g == PartialPrereqs(nodes, prerequisites, i, j)
        invariant Linked(g, adjacency, inDegree)
      {
        var prereq := prerequisites[node][j];
        PartialPrereqsEdge(nodes, prerequisites, i, j);
        LinkEdge(g, adjacency, inDegree, prereq, node);
        adjacency := adjacency[prereq := adjacency[prereq] + [node]];
        inDegree := inDegree[node := inDegree[node] + 1];
        g := g[node := g[node] + [prereq]];
      }
      PartialPrereqsNext(nodes, prerequisites, i);
    }
    EverythingLinked(nodes, prerequisites);
  }

  /** Nodes without prerequisites start at depth 0, in the queue. */
  method SeedDepths(nodes: seq<Node>, ghost g: Prereqs, inDegree: map<Node, int>)
    returns (queue: seq<Node>, depth: map<Node, nat>)
    requires Distinct(nodes) && (forall n :: n in nodes <==> n in g)
    requires inDegree.Keys == g.Keys && forall n | n in g :: inDegree[n] == |g[n]|
    ensures Worklist(g, Members([]), queue, inDegree)
    ensures depth.Keys == Members(queue) && (forall n | n in depth :: depth[n] == 0)
    ensures forall n :: n in queue <==> n in g && g[n] == []
  {
    queue := SeedQueue(nodes, g, inDegree);
    depth := map n | n in queue :: 0;
  }

  lemma SeededDepths(g: Prereqs, node: Node, queue: seq<Node>, depth: map<Node, nat>)
    requires forall n :: n in queue <==> n in g && g[n] == []
    requires depth.Keys == Members(queue) && (forall n | n in depth :: depth[n] == 0)
    ensures DepthsSoFar(g, Members([]), node, [], depth)
  {
    assert forall n, p :: !Heard(g, Members([]), node, [], n, p);
    forall n | n in g ensures n in depth <==> g[n] == [] || HeardAny(g, Members([]), node, [], n) {
    }
    forall n | n in depth ensures Attained(g, Members([]), node, [], depth, n) {
    }
  }

  /** A settled node has its depth. */
  lemma SettledHasDepth(g: Prereqs, done: set<Node>, node: Node, depth: map<Node, nat>)
    requires DepthsSoFar(g, done, node, [], depth) && node in g && Remaining(g[node], done) == 0
    ensures node in depth
  {
    RemainingZero(g[node], done);
    assert node in depth <==> g[node] == [] || HeardAny(g, done, node, [], node);
    if g[node] != [] {
      assert Heard(g, done, node, [], node, g[node][0]);
    }
  }

  /** One dependent: it is at least one deeper than `node`, and waits for one prerequisite less. */
  method RelaxDependent(ghost g: Prereqs, adj: seq<Node>, ghost done: set<Node>, node: Node, j: nat,
                        queue: seq<Node>, inDegree: map<Node, int>, depth: map<Node, nat>)
    returns (queue': seq<Node>, inDegree': map<Node, int>, depth': map<Node, nat>)
    requires node in g && node !in done && Dependents(g, node, adj) && j < |adj| && node in depth
    requires Settling(g, done, node, adj[..j], queue, inDegree)
    requires DepthsSoFar(g, done, node, adj[..j], depth)
    ensures Settling(g, done, node, adj[..j + 1], queue', inDegree')
    ensures node in depth' && DepthsSoFar(g, done, node, adj[..j + 1], depth')
  {
    var neighbour := adj[j];
    DependentWaits(g, adj, done, node, j, queue, inDegree);
    DependentNeeds(g, adj, node, j);
    HearFromNode(g, done, node, adj[..j], neighbour, depth);
    SettleDependent(g, adj, done, node, j, queue, inDegree);
    assert adj[..j + 1] == adj[..j] + [neighbour];
    depth' := depth[neighbour :=
      if neighbour in depth && depth[neighbour] > depth[node] + 1 then depth[neighbour] else depth[node] + 1];
    inDegree' := inDegree[neighbour := inDegree[neighbour] - 1];
    queue' := if inDegree'[neighbour] == 0 then queue + [neighbour] else queue;
  }

  method RelaxDependents(ghost g: Prereqs, adj: seq<Node>, ghost done: set<Node>, node: Node, queue: seq<Node>,
                         inDegree: map<Node, int>, depth: map<Node, nat>)
    returns (queue': seq<Node>, inDegree': map<Node, int>, depth': map<Node, nat>)
    requires node in g && node !in done && Dependents(g, node, adj) && node in depth
    requires Settling(g, done, node, [], queue, inDegree)
    requires DepthsSoFar(g, done, node, [], depth)
    ensures Worklist(g, done + {node}, queue', inDegree')
    ensures DepthsSoFar(g, done + {node}, node, [], depth')
  {
    queue', inDegree', depth' := queue, inDegree, depth;
    for j := 0 to |adj|
      invariant Settling(g, done, node, adj[..j], queue', inDegree')
      invariant node in depth' && DepthsSoFar(g, done, node, adj[..j], depth')
    {
      queue', inDegree', depth' := RelaxDependent(g, adj, done, node, j, queue', inDegree', depth');
    }
    assert adj[..|adj|] == adj;
    FinishSettling(g, adj, done, node, queue', inDegree');
    AllHeard(g, done, node, adj, depth', node);
  }

  lemma DependentNeeds(g: Prereqs, adj: seq<Node>, node: Node, j: nat)
    requires j < |adj| && Dependents(g, node, adj)
    ensures adj[j] in g && node in g[adj[j]]
  {
    assert adj[j] in adj;
    CountPositive(adj, adj[j]);
    CountPositive(g[adj[j]], node);
  }

  /** The depths, and the nodes in the order in which they left the queue. */
  method LongestPathDepths(nodes: seq<Node>, prerequisites: Prereqs)
    returns (depth: map<Node, nat>, ghost dequeued: seq<Node>)
    requires Distinct(nodes) && (forall n :: n in nodes <==> n in prerequisites) && Closed(prerequisites)
    ensures depth == DepthMap(prerequisites)
    ensures Distinct(dequeued) && Members(dequeued) == GroundedNodes(prerequisites)
  {
    ghost var g := prerequisites;
    var adjacency, inDegree := LinkPrereqs(nodes, prerequisites);
    var queue;
    queue, depth := SeedDepths(nodes, g, inDegree);
    ghost var order: seq<Node> := [];
    ghost var last: Node := "";
    SeededDepths(g, last, queue, depth);
    while queue != []
      invariant Distinct(order) && Topological(g, order)
      invariant Worklist(g, Members(order), queue, inDegree)
      invariant DepthsSoFar(g, Members(order), last, [], depth)
      decreases g.Keys - Members(order)
    {
      var node := queue[0];
      StartSettling(g, Members(order), queue, inDegree);
      assert node in queue;
      SameHeard(g, Members(order), last, [], Members(order), node, [], depth);
      SettledHasDepth(g, Members(order), node, depth);
      RemainingZero(g[node], Members(order));
      ExtendOrder(g, Members(order), order, node);
      queue, inDegree, depth :=
        RelaxDependents(g, adjacency[node], Members(order), node, queue[1..], inDegree, depth);
      order := order + [node];
      last := node;
    }
    DrainedIsGrounded(g, order, inDegree);
    FinalDepths(g, depth, last);
    dequeued := order;
  }
}
