/** What the cycle test on groups decides, and a Stackfile on which it misses a cycle. */
module WaveWitness {
  import opened Ordering
  import opened Digraph
  import opened Stackfile
  import opened Kahn
  import opened LongestPaths
  import opened Planner
  import opened Waves
  import opened Sweep

  /** An acyclic projection strands nothing, so it is never rejected. */
  lemma AcyclicIsAccepted(stacks: seq<StackDef>)
    requires Acyclic(GroupGraph(stacks))
    ensures Stranded(stacks) == {}
  {
    AcyclicDepthsTotal(GroupGraph(stacks));
  }

  /** The exact verdict: some group has prerequisites, and all of them reach a cycle. */
  lemma RejectedIff(stacks: seq<StackDef>)
    ensures Stranded(stacks) != {} <==>
              exists a :: a in Groups(stacks) && GroupNeeds(stacks, a) != {} &&
                          forall b | b in GroupNeeds(stacks, a) :: ReachesCycle(GroupGraph(stacks), b)
  {
    forall a ensures a in Stranded(stacks) <==>
                     a in Groups(stacks) && GroupNeeds(stacks, a) != {} &&
                     forall b | b in GroupNeeds(stacks, a) :: ReachesCycle(GroupGraph(stacks), b)
    {
      StrandedMeaning(stacks, a);
    }
    if Stranded(stacks) != {} {
      var a :| a in Stranded(stacks);
    }
  }

  /** Counting the dequeued nodes, instead of those with a depth, decides acyclicity. */
  lemma DequeuedCountDecides(g: Prereqs, dequeued: seq<Node>)
    requires Distinct(dequeued) && Members(dequeued) == GroundedNodes(g)
    ensures |dequeued| == |g.Keys| <==> Acyclic(g)
  {
    AcyclicIffGrounded(g);
    DistinctSize(dequeued);
    SubsetSameSize(GroundedNodes(g), g.Keys);
  }

  const A0 := StackDef("a0", "a0", "A", [], [])
  const B0 := StackDef("b0", "b0", "B", ["a0"], [])
  const C0 := StackDef("c0", "c0", "C", ["a0", "b0"], [])
  const B1 := StackDef("b1", "b1", "B", ["c0"], [])
  const FOUR_STACKS := [A0, B0, C0, B1]

  lemma FourStacksMembers()
    ensures forall s :: s in FOUR_STACKS <==> s == A0 || s == B0 || s == C0 || s == B1
  {
    var q := FOUR_STACKS;
    assert q[0] == A0 && q[1] == B0 && q[2] == C0 && q[3] == B1;
  }

  lemma FourStacksIds()
    ensures DistinctIds(FOUR_STACKS) && Ids(FOUR_STACKS) == {"a0", "b0", "c0", "b1"}
  {
    FourStacksMembers();
    assert A0.id == "a0" && B0.id == "b0" && C0.id == "c0" && B1.id == "b1";
    assert "a0"[0] == 'a' && "b0"[0] == 'b' && "c0"[0] == 'c' && "b1"[1] == '1' && "b0"[1] == '0' && "b1"[0] == 'b';
  }

  const FOUR_GRAPH: Prereqs := map["a0" := [], "b0" := ["a0"], "c0" := ["a0", "b0"], "b1" := ["c0"]]

  lemma FourGraphAcyclic()
    ensures Acyclic(FOUR_GRAPH)
  {
    var order := ["a0", "b0", "c0", "b1"];
    assert order[..1] == ["a0"] && order[..2] == ["a0", "b0"] && order[..3] == ["a0", "b0", "c0"];
    assert "a0"[0] == 'a' && "b0"[0] == 'b' && "c0"[0] == 'c' && "b1"[1] == '1' && "b0"[1] == '0' && "b1"[0] == 'b';
    assert Distinct(order);
    assert Topological(FOUR_GRAPH, order);
    forall n | n in FOUR_GRAPH ensures Grounded(FOUR_GRAPH, n) {
      var i :| 0 <= i < |order| && order[i] == n;
      TopologicalGrounded(FOUR_GRAPH, order, i);
    }
    AcyclicIffGrounded(FOUR_GRAPH);
  }

  lemma FourGraphEntry(s: StackDef)
    requires s == A0 || s == B0 || s == C0 || s == B1
    ensures s.id in FOUR_GRAPH && FOUR_GRAPH[s.id] == s.dependsOn
  {
    assert "a0"[0] == 'a' && "b0"[0] == 'b' && "c0"[0] == 'c' && "b1"[1] == '1' && "b0"[1] == '0' && "b1"[0] == 'b';
  }

  lemma FourStacksEntry(s: StackDef)
    requires s in FOUR_STACKS
    ensures s.id in StackGraph(FOUR_STACKS) && s.id in FOUR_GRAPH
    ensures StackGraph(FOUR_STACKS)[s.id] == FOUR_GRAPH[s.id]
  {
    FourStacksMembers();
    FourGraphEntry(s);
    FourStacksIds();
    SameStack(FOUR_STACKS, s, IdToStack(FOUR_STACKS)[s.id]);
    GraphIsDependsOn(FOUR_STACKS, s.id);
  }

  lemma FourGraphKeys()
    ensures FOUR_GRAPH.Keys == {"a0", "b0", "c0", "b1"}
  {
  }

  lemma FourStacksGraph()
    ensures StackGraph(FOUR_STACKS) == FOUR_GRAPH
  {
    forall id | id in Ids(FOUR_STACKS) ensures id in FOUR_GRAPH && StackGraph(FOUR_STACKS)[id] == FOUR_GRAPH[id] {
      FourStacksEntry(IdToStack(FOUR_STACKS)[id]);
    }
    FourStacksIds();
    FourGraphKeys();
    SameMaps(StackGraph(FOUR_STACKS), FOUR_GRAPH);
  }

  lemma FourStacksPlannable()
    ensures Plannable(FOUR_STACKS)
  {
    FourStacksMembers();
    FourStacksIds();
    FourStacksGraph();
    FourGraphAcyclic();
  }

  lemma FourStacksEdges()
    ensures Groups(FOUR_STACKS) == {"A", "B", "C"}
    ensures GroupEdge(FOUR_STACKS, "B", "A") && GroupEdge(FOUR_STACKS, "C", "A")
    ensures GroupEdge(FOUR_STACKS, "B", "C") && GroupEdge(FOUR_STACKS, "C", "B")
    ensures forall b :: !GroupEdge(FOUR_STACKS, "A", b)
  {
    FourStacksMembers();
    assert A0.id in B0.dependsOn && A0.id in C0.dependsOn && C0.id in B1.dependsOn && B0.id in C0.dependsOn;
    assert "A"[0] == 'A' && "B"[0] == 'B' && "C"[0] == 'C';
    assert A0.group in Groups(FOUR_STACKS) && B0.group in Groups(FOUR_STACKS) && C0.group in Groups(FOUR_STACKS);
  }

  /** A graph shaped like the projection: B and C need each other and A, which needs nothing. */
  lemma TwoWayPair(g: Prereqs)
    requires Closed(g) && g.Keys == {"A", "B", "C"} && g["A"] == []
    requires "A" in g["B"] && "A" in g["C"] && "C" in g["B"] && "B" in g["C"]
    ensures !Acyclic(g) && DepthedNodes(g) == g.Keys
  {
    var w := ["B", "C", "B"];
    assert w[1..] == ["C", "B"] && w[1..][1..] == ["B"];
    assert IsWalk(g, w) && w[0] == w[|w| - 1];
    assert Topological(g, ["A"]);
    TopologicalGrounded(g, ["A"], 0);
    assert ["A"][0] == "A" && Grounded(g, "A");
  }

  /** The stacks are acyclic, their groups B and C need each other, and nothing is stranded. */
  lemma CyclicGroupsAccepted()
    ensures Plannable(FOUR_STACKS) && !Acyclic(GroupGraph(FOUR_STACKS)) && Stranded(FOUR_STACKS) == {}
  {
    FourStacksPlannable();
    FourStacksEdges();
    var g := GroupGraph(FOUR_STACKS);
    assert "A"[0] == 'A' && "B"[0] == 'B' && "C"[0] == 'C';
    assert GroupNeeds(FOUR_STACKS, "A") == {};
    EmptyListing(g["A"], GroupNeeds(FOUR_STACKS, "A"), LexLeq);
    TwoWayPair(g);
  }

  /** And it has waves. */
  lemma FourStacksSwept() returns (waves: seq<seq<string>>)
    ensures Swept(FOUR_STACKS, waves) && Stranded(FOUR_STACKS) == {}
  {
    CyclicGroupsAccepted();
    waves := WavesExist(FOUR_STACKS);
  }

  /** So the sweep such a Stackfile drives has a run that deploys a stack before its dependency. */
  lemma AcceptedYetUnsafe(waves: seq<seq<string>>)
    requires Swept(FOUR_STACKS, waves)
    ensures !AlwaysSafe(FOUR_STACKS, waves)
  {
    CyclicGroupsAccepted();
    SweepSafety(FOUR_STACKS, waves);
  }
}
