/** Kahn's algorithm as the planner runs it twice: once to order the stacks and find cycles, once
    for the depth of every node. Both count down the prerequisites a node still waits for. */
module Kahn {
  import opened Results
  import opened Digraph
  import opened Stackfile

  // ---- In-degrees and adjacency lists ----

  /** How many entries of `ps`, repeats included, are not done. */
  function Remaining(ps: seq<Node>, done: set<Node>): nat {
    if ps == [] then 0
    else Remaining(ps[..|ps| - 1], done) + (if ps[|ps| - 1] in done then 0 else 1)
  }

  /** How often `n` occurs in `ps`. */
  function Count(ps: seq<Node>, n: Node): nat {
    if ps == [] then 0
    else Count(ps[..|ps| - 1], n) + (if ps[|ps| - 1] == n then 1 else 0)
  }

  lemma {:induction false} CountPositive(ps: seq<Node>, n: Node)
    ensures Count(ps, n) > 0 <==> n in ps
    decreases |ps|
  {
    if ps != [] {
      CountPositive(ps[..|ps| - 1], n);
      assert ps == ps[..|ps| - 1] + [ps[|ps| - 1]];
    }
  }

  lemma {:induction false} CountMonotone(ps: seq<Node>, j: nat, n: Node)
    requires j <= |ps|
    ensures Count(ps[..j], n) <= Count(ps, n)
    decreases |ps|
  {
    if j == |ps| {
      assert ps[..j] == ps;
    } else {
      CountMonotone(ps[..|ps| - 1], j, n);
      assert ps[..|ps| - 1][..j] == ps[..j];
    }
  }

  lemma CountAppend(ps: seq<Node>, x: Node, n: Node)
    ensures Count(ps + [x], n) == Count(ps, n) + (if n == x then 1 else 0)
  {
    assert (ps + [x])[..|ps|] == ps;
  }

  lemma {:induction false} RemainingOfNone(ps: seq<Node>)
    ensures Remaining(ps, {}) == |ps|
    decreases |ps|
  {
    if ps != [] {
      RemainingOfNone(ps[..|ps| - 1]);
    }
  }

  lemma {:induction false} RemainingZero(ps: seq<Node>, done: set<Node>)
    ensures Remaining(ps, done) == 0 <==> forall p | p in ps :: p in done
    decreases |ps|
  {
    if ps != [] {
      RemainingZero(ps[..|ps| - 1], done);
      assert ps == ps[..|ps| - 1] + [ps[|ps| - 1]];
    }
  }

  lemma {:induction false} RemainingStep(ps: seq<Node>, done: set<Node>, n: Node)
    requires n !in done
    ensures Remaining(ps, done + {n}) == Remaining(ps, done) - Count(ps, n)
    decreases |ps|
  {
    if ps != [] {
      RemainingStep(ps[..|ps| - 1], done, n);
      assert ps == ps[..|ps| - 1] + [ps[|ps| - 1]];
    }
  }

  /** `adj` lists the nodes that need `d`, each as often as it lists `d`. */
  ghost predicate Dependents(g: Prereqs, d: Node, adj: seq<Node>) {
    && (forall n | n in adj :: n in g)
    && (forall n | n in g :: Count(adj, n) == Count(g[n], d))
  }

  /** The adjacency lists invert the prerequisite lists, repeats included, and count them. */
  ghost predicate Linked(g: Prereqs, adjacency: Prereqs, inDegree: map<Node, int>) {
    && Closed(g)
    && adjacency.Keys == inDegree.Keys == g.Keys
    && (forall n | n in g :: inDegree[n] == |g[n]|)
    && (forall d | d in g :: Dependents(g, d, adjacency[d]))
  }

  lemma LinkEdge(g: Prereqs, adjacency: Prereqs, inDegree: map<Node, int>, d: Node, n: Node)
    requires Linked(g, adjacency, inDegree) && d in g && n in g
    ensures Linked(g[n := g[n] + [d]], adjacency[d := adjacency[d] + [n]], inDegree[n := inDegree[n] + 1])
  {
    var g', a' := g[n := g[n] + [d]], adjacency[d := adjacency[d] + [n]];
    forall e | e in g' ensures Dependents(g', e, a'[e]) {
      assert Dependents(g, e, adjacency[e]);
      forall m | m in g' ensures Count(a'[e], m) == Count(g'[m], e) {
        CountAppend(adjacency[e], n, m);
        CountAppend(g[m], d, e);
      }
    }
  }

  /** The stack graph of a prefix of the stacks and of `j` dependencies of the next one. */
  ghost function PartialGraph(stacks: seq<StackDef>, known: set<Node>, i: nat, j: nat): Prereqs
    requires i <= |stacks| && (if i < |stacks| then j <= |stacks[i].dependsOn| else j == 0)
  {
    map n | n in known ::
      DepsOf(stacks[..i], known, n) +
      (if i < |stacks| && stacks[i].id == n then KnownOnly(stacks[i].dependsOn[..j], known) else [])
  }

  lemma PartialGraphDep(stacks: seq<StackDef>, known: set<Node>, i: nat, j: nat)
    requires i < |stacks| && j < |stacks[i].dependsOn| && stacks[i].id in known
    ensures var g := PartialGraph(stacks, known, i, j);
            var d, n := stacks[i].dependsOn[j], stacks[i].id;
            PartialGraph(stacks, known, i, j + 1) == if d in known then g[n := g[n] + [d]] else g
  {
    var deps, n := stacks[i].dependsOn, stacks[i].id;
    assert deps[..j + 1][..j] == deps[..j];
    var g, g' := PartialGraph(stacks, known, i, j), PartialGraph(stacks, known, i, j + 1);
    assert g'[n] == if deps[j] in known then g[n] + [deps[j]] else g[n];
    assert forall m | m in known && m != n :: g'[m] == g[m];
  }

  lemma UnlinkedPartial(stacks: seq<StackDef>, known: set<Node>, adjacency: Prereqs, inDegree: map<Node, int>)
    requires adjacency.Keys == inDegree.Keys == known
    requires forall n | n in known :: adjacency[n] == [] && inDegree[n] == 0
    ensures Linked(PartialGraph(stacks, known, 0, 0), adjacency, inDegree)
  {
    assert forall n | n in known :: PartialGraph(stacks, known, 0, 0)[n] == [];
  }

  lemma AllLinked(stacks: seq<StackDef>, adjacency: Prereqs, inDegree: map<Node, int>)
    requires Linked(PartialGraph(stacks, Ids(stacks), |stacks|, 0), adjacency, inDegree)
    ensures Linked(StackGraph(stacks), adjacency, inDegree)
  {
    assert stacks[..|stacks|] == stacks;
    var known := Ids(stacks);
    forall n | n in known ensures PartialGraph(stacks, known, |stacks|, 0)[n] == DepsOf(stacks, known, n) {
    }
    assert PartialGraph(stacks, known, |stacks|, 0) == StackGraph(stacks);
  }

  lemma PartialGraphNext(stacks: seq<StackDef>, known: set<Node>, i: nat)
    requires i < |stacks|
    ensures PartialGraph(stacks, known, i, |stacks[i].dependsOn|) == PartialGraph(stacks, known, i + 1, 0)
  {
    assert stacks[..i + 1][..i] == stacks[..i];
    var deps := stacks[i].dependsOn;
    assert deps[..|deps|] == deps;
    forall m | m in known
      ensures PartialGraph(stacks, known, i, |deps|)[m] == PartialGraph(stacks, known, i + 1, 0)[m]
    {
      assert DepsOf(stacks[..i + 1], known, m) ==
             DepsOf(stacks[..i], known, m) + (if stacks[i].id == m then KnownOnly(deps, known) else []);
      if i + 1 < |stacks| {
        assert KnownOnly(stacks[i + 1].dependsOn[..0], known) == [];
      }
    }
  }

  method LinkStack(stacks: seq<StackDef>, i: nat, idSet: set<Node>, adjacency: Prereqs, inDegree: map<Node, int>)
    returns (adjacency': Prereqs, inDegree': map<Node, int>)
    requires i < |stacks| && stacks[i].id in idSet
    requires Linked(PartialGraph(stacks, idSet, i, 0), adjacency, inDegree)
    ensures Linked(PartialGraph(stacks, idSet, i + 1, 0), adjacency', inDegree')
  {
    adjacency', inDegree' := adjacency, inDegree;
    var stack := stacks[i];
    ghost var g := PartialGraph(stacks, idSet, i, 0);
    for j := 0 to |stack.dependsOn|
      invariant g == PartialGraph(stacks, idSet, i, j)
      invariant Linked(g, adjacency', inDegree')
    {
      var dep := stack.dependsOn[j];
      PartialGraphDep(stacks, idSet, i, j);
      if dep in idSet {
        LinkEdge(g, adjacency', inDegree', dep, stack.id);
        adjacency' := adjacency'[dep := adjacency'[dep] + [stack.id]];
        inDegree' := inDegree'[stack.id := inDegree'[stack.id] + 1];
        g := g[stack.id := g[stack.id] + [dep]];
      }
    }
    PartialGraphNext(stacks, idSet, i);
  }

  method UnlinkedNodes(ghost stacks: seq<StackDef>, idSet: set<Node>)
    returns (adjacency: Prereqs, inDegree: map<Node, int>)
    ensures Linked(PartialGraph(stacks, idSet, 0, 0), adjacency, inDegree)
  {
    adjacency := map n | n in idSet :: [];
    inDegree := map n | n in idSet :: 0;
    UnlinkedPartial(stacks, idSet, adjacency, inDegree);
  }

  method LinkStacks(stacks: seq<StackDef>) returns (adjacency: Prereqs, inDegree: map<Node, int>)
    ensures Linked(StackGraph(stacks), adjacency, inDegree)
  {
    var idSet := Ids(stacks);
    ghost var g := PartialGraph(stacks, idSet, 0, 0);
    adjacency, inDegree := UnlinkedNodes(stacks, idSet);
    for i := 0 to |stacks|
      invariant g == PartialGraph(stacks, idSet, i, 0) && Linked(g, adjacency, inDegree)
    {
      adjacency, inDegree := LinkStack(stacks, i, idSet, adjacency, inDegree);
      g := PartialGraph(stacks, idSet, i + 1, 0);
    }
    AllLinked(stacks, adjacency, inDegree);
  }

  // ---- The worklist ----

  /** `done` is settled, `queue` is ready, and everything else still waits for something. */
  ghost predicate Worklist(g: Prereqs, done: set<Node>, queue: seq<Node>, inDegree: map<Node, int>) {
    && inDegree.Keys == g.Keys
    && Distinct(queue)
    && (forall n | n in queue :: n in g && n !in done)
    && (forall n | n in g :: inDegree[n] == Remaining(g[n], done))
    && (forall n | n in g :: inDegree[n] == 0 <==> n in done || n in queue)
  }

  /** The same while `node` is being settled and the dependents in `seen` were told. */
  ghost predicate Settling(g: Prereqs, done: set<Node>, node: Node, seen: seq<Node>, queue: seq<Node>,
                           inDegree: map<Node, int>) {
    && inDegree.Keys == g.Keys
    && Distinct(queue)
    && (forall n | n in queue :: n in g && n !in done && n != node)
    && (forall n | n in g :: inDegree[n] == Remaining(g[n], done) - Count(seen, n))
    && (forall n | n in g :: inDegree[n] == 0 <==> n in done || n == node || n in queue)
  }

  lemma {:induction false} CountWithinRemaining(ps: seq<Node>, done: set<Node>, n: Node)
    requires n !in done
    ensures Count(ps, n) <= Remaining(ps, done)
    decreases |ps|
  {
    if ps != [] {
      CountWithinRemaining(ps[..|ps| - 1], done, n);
      assert ps == ps[..|ps| - 1] + [ps[|ps| - 1]];
    }
  }

  lemma StartSettling(g: Prereqs, done: set<Node>, queue: seq<Node>, inDegree: map<Node, int>)
    requires Worklist(g, done, queue, inDegree) && |queue| > 0
    ensures Settling(g, done, queue[0], [], queue[1..], inDegree)
  {
    assert queue == [queue[0]] + queue[1..];
    forall n | n in queue[1..] ensures n in queue && n != queue[0] {
      var i :| 0 <= i < |queue| - 1 && queue[1..][i] == n;
      assert queue[i + 1] == n;
    }
  }

  lemma CountOfPrefix(adj: seq<Node>, j: nat, m: Node)
    requires j < |adj|
    ensures Count(adj[..j + 1], m) == Count(adj[..j], m) + (if m == adj[j] then 1 else 0)
    ensures Count(adj[..j + 1], m) <= Count(adj, m)
  {
    assert adj[..j + 1][..j] == adj[..j];
    CountMonotone(adj, j + 1, m);
  }

  /** The next dependent to be told still waits for the node being settled. */
  lemma DependentWaits(g: Prereqs, adj: seq<Node>, done: set<Node>, node: Node, j: nat, queue: seq<Node>,
                       inDegree: map<Node, int>)
    requires node in g && node !in done && j < |adj| && Dependents(g, node, adj)
    requires Settling(g, done, node, adj[..j], queue, inDegree)
    ensures adj[j] in g && adj[j] !in done && adj[j] != node && adj[j] !in queue && inDegree[adj[j]] > 0
  {
    var m := adj[j];
    assert m in adj;
    CountOfPrefix(adj, j, m);
    CountWithinRemaining(g[m], done, node);
    assert inDegree[m] > 0;
  }

  /** Telling one dependent: its count drops, and it joins the queue when nothing is left. */
  lemma SettleDependent(g: Prereqs, adj: seq<Node>, done: set<Node>, node: Node, j: nat, queue: seq<Node>,
                        inDegree: map<Node, int>)
    requires node in g && node !in done && j < |adj| && Dependents(g, node, adj)
    requires Settling(g, done, node, adj[..j], queue, inDegree)
    ensures adj[j] in inDegree
    ensures var inDegree' := inDegree[adj[j] := inDegree[adj[j]] - 1];
            Settling(g, done, node, adj[..j + 1], if inDegree'[adj[j]] == 0 then queue + [adj[j]] else queue, inDegree')
  {
    var m := adj[j];
    DependentWaits(g, adj, done, node, j, queue, inDegree);
    var inDegree' := inDegree[m := inDegree[m] - 1];
    forall n | n in g ensures inDegree'[n] == Remaining(g[n], done) - Count(adj[..j + 1], n) {
      CountOfPrefix(adj, j, n);
    }
  }

  lemma FinishSettling(g: Prereqs, adj: seq<Node>, done: set<Node>, node: Node, queue: seq<Node>,
                       inDegree: map<Node, int>)
    requires node in g && node !in done && Dependents(g, node, adj)
    requires Settling(g, done, node, adj, queue, inDegree)
    ensures Worklist(g, done + {node}, queue, inDegree)
  {
    forall n | n in g ensures inDegree[n] == Remaining(g[n], done + {node}) {
      RemainingStep(g[n], done, node);
    }
  }

  ghost function Members(s: seq<Node>): set<Node> {
    set n | n in s
  }

  /** When the queue is empty every node left over still waits for another one. */
  lemma DrainedIsGrounded(g: Prereqs, order: seq<Node>, inDegree: map<Node, int>)
    requires Closed(g) && Worklist(g, Members(order), [], inDegree)
    requires Distinct(order) && Topological(g, order)
    ensures Members(order) == GroundedNodes(g)
  {
    forall n | n in g && n !in order ensures exists p :: p in g[n] && p in g && p !in order {
      RemainingZero(g[n], Members(order));
      assert n !in Members(order);
      var p :| p in g[n] && p !in Members(order);
    }
    ExhaustedSortIsGrounded(g, order);
  }

  method SeedQueue(nodes: seq<Node>, ghost g: Prereqs, inDegree: map<Node, int>) returns (queue: seq<Node>)
    requires Distinct(nodes) && (forall n :: n in nodes <==> n in g)
    requires inDegree.Keys == g.Keys && forall n | n in g :: inDegree[n] == |g[n]|
    ensures Worklist(g, Members([]), queue, inDegree)
    ensures forall n :: n in queue <==> n in g && g[n] == []
  {
    queue := [];
    for i := 0 to |nodes|
      invariant Distinct(queue)
      invariant forall n :: n in queue <==> n in nodes[..i] && inDegree[n] == 0
    {
      assert nodes[i] !in nodes[..i];
      if inDegree[nodes[i]] == 0 {
        queue := queue + [nodes[i]];
      }
    }
    assert Members([]) == {};
    forall n | n in g ensures Remaining(g[n], {}) == |g[n]| {
      RemainingOfNone(g[n]);
    }
  }

  // ---- detect_cycles ----

  /** The ids in the order of their first declaration. */
  function IdsInOrder(stacks: seq<StackDef>): (r: seq<Node>)
    ensures Distinct(r) && |r| <= |stacks|
    ensures forall n :: n in r <==> n in Ids(stacks)
    ensures |r| == |stacks| <==> DistinctIds(stacks)
  {
    if stacks == [] then []
    else
      var front, last := stacks[..|stacks| - 1], stacks[|stacks| - 1];
      assert stacks == front + [last];
      var r := IdsInOrder(front);
      assert last.id in r <==> exists i :: 0 <= i < |front| && front[i].id == last.id;
      if last.id in r then r else r + [last.id]
  }

  lemma {:induction false} DistinctSize(s: seq<Node>)
    requires Distinct(s)
    ensures |set n | n in s| == |s|
    decreases |s|
  {
    if s != [] {
      var front, last := s[..|s| - 1], s[|s| - 1];
      DistinctSize(front);
      assert s == front + [last];
      assert (set n | n in s) == (set n | n in front) + {last};
    }
  }

  /** A permutation of the ids in which every known dependency comes before its dependents. */
  ghost predicate IsDeploymentOrder(stacks: seq<StackDef>, order: seq<Node>) {
    && Distinct(order)
    && (forall n :: n in order <==> n in Ids(stacks))
    && Topological(StackGraph(stacks), order)
  }

  method ReleaseDependents(ghost g: Prereqs, adj: seq<Node>, ghost done: set<Node>, ghost node: Node,
                           queue: seq<Node>, inDegree: map<Node, int>)
    returns (queue': seq<Node>, inDegree': map<Node, int>)
    requires node in g && node !in done && Dependents(g, node, adj)
    requires Settling(g, done, node, [], queue, inDegree)
    ensures Worklist(g, done + {node}, queue', inDegree')
  {
    queue', inDegree' := queue, inDegree;
    for j := 0 to |adj|
      invariant Settling(g, done, node, adj[..j], queue', inDegree')
    {
      var neighbour := adj[j];
      SettleDependent(g, adj, done, node, j, queue', inDegree');
      inDegree' := inDegree'[neighbour := inDegree'[neighbour] - 1];
      if inDegree'[neighbour] == 0 {
        queue' := queue' + [neighbour];
      }
    }
    assert adj[..|adj|] == adj;
    FinishSettling(g, adj, done, node, queue', inDegree');
  }

  lemma ExtendOrder(g: Prereqs, done: set<Node>, order: seq<Node>, node: Node)
    requires done == Members(order) && node in g && node !in done
    requires Distinct(order) && Topological(g, order) && forall p | p in g[node] :: p in done
    ensures Distinct(order + [node]) && Topological(g, order + [node])
    ensures done + {node} == Members(order + [node])
  {
    var order' := order + [node];
    forall i | 0 <= i < |order'| ensures order'[i] in g && forall p | p in g[order'[i]] :: p in order'[..i] {
      assert order'[..i] == order[..i];
    }
  }

  /** One turn of the main loop: settle the head of the queue. */
  method SettleNext(ghost g: Prereqs, adjacency: Prereqs, order: seq<Node>, queue: seq<Node>, inDegree: map<Node, int>)
    returns (order': seq<Node>, queue': seq<Node>, inDegree': map<Node, int>)
    requires adjacency.Keys == g.Keys && forall d | d in g :: Dependents(g, d, adjacency[d])
    requires queue != [] && Worklist(g, Members(order), queue, inDegree)
    requires Distinct(order) && Topological(g, order)
    ensures Distinct(order') && Topological(g, order')
    ensures Worklist(g, Members(order'), queue', inDegree')
    ensures Members(order') == Members(order) + {queue[0]} && queue[0] in g && queue[0] !in order
  {
    var node := queue[0];
    StartSettling(g, Members(order), queue, inDegree);
    assert node in queue;
    RemainingZero(g[node], Members(order));
    queue', inDegree' := ReleaseDependents(g, adjacency[node], Members(order), node, queue[1..], inDegree);
    ExtendOrder(g, Members(order), order, node);
    order' := order + [node];
  }

  /** The main loop: what it drains is what cannot reach a cycle. */
  method Drain(ghost g: Prereqs, adjacency: Prereqs, inDegree: map<Node, int>, queue: seq<Node>)
    returns (sortedOrder: seq<Node>)
    requires Closed(g) && adjacency.Keys == g.Keys && forall d | d in g :: Dependents(g, d, adjacency[d])
    requires Worklist(g, Members([]), queue, inDegree)
    ensures Distinct(sortedOrder)
    ensures Topological(g, sortedOrder)
    ensures Members(sortedOrder) == GroundedNodes(g)
  {
    sortedOrder := [];
    var queue, inDegree := queue, inDegree;
    while queue != []
      invariant Distinct(sortedOrder) && Topological(g, sortedOrder)
      invariant Worklist(g, Members(sortedOrder), queue, inDegree)
      decreases g.Keys - Members(sortedOrder)
    {
      sortedOrder, queue, inDegree := SettleNext(g, adjacency, sortedOrder, queue, inDegree);
    }
    DrainedIsGrounded(g, sortedOrder, inDegree);
  }

  method NodesLeftOut(nodes: seq<Node>, sortedOrder: seq<Node>) returns (r: seq<Node>)
    requires Distinct(nodes)
    ensures Distinct(r)
    ensures forall n :: n in r <==> n in nodes && n !in sortedOrder
  {
    r := [];
    for i := 0 to |nodes|
      invariant Distinct(r)
      invariant forall n :: n in r <==> n in nodes[..i] && n !in sortedOrder
    {
      assert nodes[i] !in nodes[..i];
      if nodes[i] !in sortedOrder {
        r := r + [nodes[i]];
      }
    }
  }

  method DetectCycles(stacks: seq<StackDef>) returns (r: Result<seq<Node>, StackfileError>)
    ensures r.Success? <==> DistinctIds(stacks) && Acyclic(StackGraph(stacks))
    ensures r.Success? ==> IsDeploymentOrder(stacks, r.value)
    ensures r.Failure? ==> r.error.CyclicStacks? && Distinct(r.error.nodes)
    ensures r.Failure? ==> forall n :: n in r.error.nodes <==> n in Ids(stacks) && ReachesCycle(StackGraph(stacks), n)
  {
    ghost var g := StackGraph(stacks);
    var adjacency, inDegree := LinkStacks(stacks);
    var nodes := IdsInOrder(stacks);
    var queue := SeedQueue(nodes, g, inDegree);
    var sortedOrder := Drain(g, adjacency, inDegree, queue);
    SortedOrderSize(stacks, sortedOrder);
    if |sortedOrder| != |stacks| {
      var cycleNodes := NodesLeftOut(nodes, sortedOrder);
      assert forall n :: n in sortedOrder <==> n in GroundedNodes(g);
      return Failure(CyclicStacks(cycleNodes));
    }
    return Success(sortedOrder);
  }

  /** Comparing lengths tells whether the ids are distinct and everything was drained. */
  lemma SortedOrderSize(stacks: seq<StackDef>, order: seq<Node>)
    requires Distinct(order) && Members(order) == GroundedNodes(StackGraph(stacks))
    ensures |order| == |stacks| <==> DistinctIds(stacks) && Acyclic(StackGraph(stacks))
    ensures Acyclic(StackGraph(stacks)) ==> forall n :: n in order <==> n in Ids(stacks)
  {
    var g := StackGraph(stacks);
    var nodes := IdsInOrder(stacks);
    AcyclicIffGrounded(g);
    DistinctSize(order);
    DistinctSize(nodes);
    assert (set n | n in nodes) == g.Keys;
    SubsetSameSize(GroundedNodes(g), g.Keys);
    assert forall n :: n in order <==> n in GroundedNodes(g);
  }

  lemma SubsetSameSize(a: set<Node>, b: set<Node>)
    requires a <= b
    ensures |a| <= |b|
    ensures |a| == |b| ==> a == b
  {
    assert b == a + (b - a);
    assert |b| == |a| + |b - a|;
  }
}
