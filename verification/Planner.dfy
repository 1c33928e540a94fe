/** The deployment plan: stacks cut into stages by dependency depth. */
module Planner {
  import opened Results
  import opened Ordering
  import opened Digraph
  import opened Stackfile
  import opened Kahn
  import opened LongestPaths

  datatype Stage = Stage(number: nat, stacks: seq<StackDef>)

  /** A Stackfile the planner accepts. */
  ghost predicate Plannable(stacks: seq<StackDef>) {
    ValidReferences(stacks) && DistinctIds(stacks) && Acyclic(StackGraph(stacks))
  }

  /** The dict from id to stack; a repeated id keeps the last entry. */
  function IdToStack(stacks: seq<StackDef>): (m: map<Node, StackDef>)
    ensures m.Keys == Ids(stacks)
    ensures forall id | id in m :: m[id] in stacks && m[id].id == id
  {
    if stacks == [] then map[]
    else
      var front, last := stacks[..|stacks| - 1], stacks[|stacks| - 1];
      assert stacks == front + [last];
      IdToStack(front)[last.id := last]
  }

  /** Of several stacks with one id the last is kept. */
  lemma {:induction false} IdToLastStack(stacks: seq<StackDef>, i: nat)
    requires i < |stacks| && forall j | i < j < |stacks| :: stacks[j].id != stacks[i].id
    ensures stacks[i].id in IdToStack(stacks) && IdToStack(stacks)[stacks[i].id] == stacks[i]
    decreases |stacks|
  {
    if i < |stacks| - 1 {
      IdToLastStack(stacks[..|stacks| - 1], i);
    }
  }

  lemma SameStack(stacks: seq<StackDef>, s: StackDef, t: StackDef)
    requires DistinctIds(stacks) && s in stacks && t in stacks && s.id == t.id
    ensures s == t
  {
    var i :| 0 <= i < |stacks| && stacks[i] == s;
    var j :| 0 <= j < |stacks| && stacks[j] == t;
    assert i == j;
  }

  lemma GraphIsDependsOn(stacks: seq<StackDef>, id: Node)
    requires DistinctIds(stacks) && id in Ids(stacks)
    requires forall d | d in IdToStack(stacks)[id].dependsOn :: d in Ids(stacks)
    ensures StackGraph(stacks)[id] == IdToStack(stacks)[id].dependsOn
  {
    var i :| 0 <= i < |stacks| && stacks[i].id == id;
    SameStack(stacks, stacks[i], IdToStack(stacks)[id]);
    DepsOfDistinct(stacks, Ids(stacks), i);
  }

  /** Without broken references the graph is the map from ids to declared dependencies. */
  lemma EdgesAreDependsOn(stacks: seq<StackDef>)
    requires ValidReferences(stacks) && DistinctIds(stacks)
    ensures forall id | id in Ids(stacks) :: IdToStack(stacks)[id].dependsOn == StackGraph(stacks)[id]
  {
    forall id | id in Ids(stacks) ensures IdToStack(stacks)[id].dependsOn == StackGraph(stacks)[id] {
      GraphIsDependsOn(stacks, id);
    }
  }

  lemma PrerequisitesAreGraph(stacks: seq<StackDef>, prerequisites: Prereqs)
    requires prerequisites.Keys == Ids(stacks)
    requires forall id | id in prerequisites :: prerequisites[id] == IdToStack(stacks)[id].dependsOn
    requires forall id | id in Ids(stacks) :: IdToStack(stacks)[id].dependsOn == StackGraph(stacks)[id]
    ensures prerequisites == StackGraph(stacks) && Closed(prerequisites)
  {
    SameMaps(prerequisites, StackGraph(stacks));
    GraphClosed(stacks);
  }

  lemma SameMaps(a: Prereqs, b: Prereqs)
    requires a.Keys == b.Keys && forall id | id in a :: a[id] == b[id]
    ensures a == b
  {
  }

  // ---- What a plan is ----

  function IdsOf(stacks: seq<StackDef>): (r: seq<Node>)
    ensures |r| == |stacks| && forall i | 0 <= i < |r| :: r[i] == stacks[i].id
    ensures forall s | s in stacks :: s.id in r
    ensures forall id | id in r :: exists s :: s in stacks && s.id == id
  {
    seq(|stacks|, i requires 0 <= i < |stacks| => stacks[i].id)
  }

  ghost function IdsAtDepth(g: Prereqs, d: nat): set<Node> {
    set n | n in g && Depth(g, n) == d
  }

  /** Stage `d` lists the stacks of depth `d`, sorted by id. */
  ghost predicate IsStage(stacks: seq<StackDef>, stage: Stage, d: nat) {
    && stage.number == d
    && stage.stacks != []
    && (forall s | s in stage.stacks :: s in stacks)
    && IsListing(IdsOf(stage.stacks), IdsAtDepth(StackGraph(stacks), d), LexLeq)
  }

  ghost predicate IsPlan(stacks: seq<StackDef>, stages: seq<Stage>) {
    && (forall d | 0 <= d < |stages| :: IsStage(stacks, stages[d], d))
    && (forall n | n in StackGraph(stacks) :: Depth(StackGraph(stacks), n) < |stages|)
  }

  lemma StageMembers(stacks: seq<StackDef>, stage: Stage, d: nat, s: StackDef)
    requires DistinctIds(stacks) && IsStage(stacks, stage, d)
    ensures s in stage.stacks <==> s in stacks && Depth(StackGraph(stacks), s.id) == d
  {
    if s in stage.stacks {
      assert s.id in IdsOf(stage.stacks);
    }
    if s in stacks && Depth(StackGraph(stacks), s.id) == d {
      assert s.id in IdsOf(stage.stacks);
      var t :| t in stage.stacks && t.id == s.id;
      SameStack(stacks, s, t);
    }
  }

  // ---- Main results about plans ----

  /** Inside a stage the ids ascend: the first position at which two of them differ decides. */
  lemma StageIsSorted(stacks: seq<StackDef>, stages: seq<Stage>, d: nat, i: nat, j: nat)
    requires IsPlan(stacks, stages) && d < |stages| && i < j < |stages[d].stacks|
    ensures var a, b := stages[d].stacks[i].id, stages[d].stacks[j].id;
            a != b && (a <= b || FirstDifferenceBelow(a, b))
  {
    var ids := IdsOf(stages[d].stacks);
    assert ids[i] == stages[d].stacks[i].id && ids[j] == stages[d].stacks[j].id;
    LexLeqMeaning(ids[i], ids[j]);
  }

  /** Every stack is in exactly one stage, and everything it depends on in a strictly earlier one. */
  lemma PlanIsSafe(stacks: seq<StackDef>, stages: seq<Stage>)
    requires Plannable(stacks) && IsPlan(stacks, stages)
    ensures forall s | s in stacks :: exists d :: 0 <= d < |stages| && s in stages[d].stacks
    ensures forall d, e, s | 0 <= d < |stages| && 0 <= e < |stages| &&
              s in stages[d].stacks && s in stages[e].stacks :: d == e
    ensures forall d, e, s, t | 0 <= d < |stages| && 0 <= e < |stages| && s in stages[d].stacks &&
              t in stages[e].stacks && t.id in s.dependsOn :: e < d
  {
    var g := StackGraph(stacks);
    forall s | s in stacks ensures exists d :: 0 <= d < |stages| && s in stages[d].stacks {
      var d := Depth(g, s.id);
      StageMembers(stacks, stages[d], d, s);
    }
    forall d, e, s | 0 <= d < |stages| && 0 <= e < |stages| && s in stages[d].stacks && s in stages[e].stacks
      ensures d == e
    {
      StageMembers(stacks, stages[d], d, s);
      StageMembers(stacks, stages[e], e, s);
    }
    forall d, e, s, t | 0 <= d < |stages| && 0 <= e < |stages| && s in stages[d].stacks && t in stages[e].stacks &&
                        t.id in s.dependsOn
      ensures e < d
    {
      StageMembers(stacks, stages[d], d, s);
      StageMembers(stacks, stages[e], e, t);
      DependencyIsShallower(stacks, s, t.id);
    }
  }

  lemma DependencyIsShallower(stacks: seq<StackDef>, s: StackDef, dep: Node)
    requires Plannable(stacks) && s in stacks && dep in s.dependsOn
    ensures dep in Ids(stacks) && dep in StackGraph(stacks)[s.id]
    ensures Depth(StackGraph(stacks), dep) < Depth(StackGraph(stacks), s.id)
  {
    var g := StackGraph(stacks);
    SameStack(stacks, s, IdToStack(stacks)[s.id]);
    GraphIsDependsOn(stacks, s.id);
    GraphClosed(stacks);
    AcyclicIffGrounded(g);
    DepthStep(g, s.id, dep);
  }

  /** Any assignment of stage numbers that puts dependencies strictly earlier. */
  ghost predicate IsStaging(stacks: seq<StackDef>, level: map<Node, nat>) {
    && level.Keys == Ids(stacks)
    && (forall s, dep | s in stacks && dep in s.dependsOn && dep in level :: level[dep] < level[s.id])
  }

  ghost predicate FitsIn(level: map<Node, nat>, k: nat) {
    forall id | id in level :: level[id] < k
  }

  lemma {:induction false} StagingBoundsWalks(stacks: seq<StackDef>, level: map<Node, nat>, w: seq<Node>)
    requires Plannable(stacks) && IsStaging(stacks, level) && IsWalk(StackGraph(stacks), w)
    ensures w[0] in level && |w| <= level[w[0]] + 1
    decreases |w|
  {
    if |w| > 1 {
      GraphIsDependsOn(stacks, w[0]);
      var s := IdToStack(stacks)[w[0]];
      StagingBoundsWalks(stacks, level, w[1..]);
      assert level[w[1]] < level[s.id];
    }
  }

  /** No other staging is earlier for any stack, so none has fewer stages. */
  lemma PlanIsOptimal(stacks: seq<StackDef>, stages: seq<Stage>, level: map<Node, nat>)
    requires Plannable(stacks) && IsPlan(stacks, stages) && IsStaging(stacks, level)
    ensures forall d, s | 0 <= d < |stages| && s in stages[d].stacks :: d <= level[s.id]
    ensures forall k: nat | FitsIn(level, k) :: |stages| <= k
  {
    forall d, s | 0 <= d < |stages| && s in stages[d].stacks ensures d <= level[s.id] {
      StageMembers(stacks, stages[d], d, s);
      var w := DeepestWalk(StackGraph(stacks), s.id);
      StagingBoundsWalks(stacks, level, w);
    }
    forall k: nat | FitsIn(level, k) ensures |stages| <= k {
      if |stages| > 0 {
        var last := |stages| - 1;
        var s := stages[last].stacks[0];
        assert s in stages[last].stacks;
        assert s in stacks;
        assert last <= level[s.id];
      }
    }
  }

  /** The stages are determined by the stacks. */
  lemma PlanUnique(stacks: seq<StackDef>, p: seq<Stage>, q: seq<Stage>)
    requires DistinctIds(stacks) && IsPlan(stacks, p) && IsPlan(stacks, q)
    ensures p == q
  {
    PlanLength(stacks, p, q);
    PlanLength(stacks, q, p);
    forall d | 0 <= d < |p| ensures p[d] == q[d] {
      StageUnique(stacks, p[d], q[d], d);
    }
  }

  lemma PlanLength(stacks: seq<StackDef>, p: seq<Stage>, q: seq<Stage>)
    requires IsPlan(stacks, p) && IsPlan(stacks, q)
    ensures |p| <= |q|
  {
    if |p| > 0 {
      var last := |p| - 1;
      var id := IdsOf(p[last].stacks)[0];
      assert id in IdsOf(p[last].stacks);
    }
  }

  lemma StageUnique(stacks: seq<StackDef>, p: Stage, q: Stage, d: nat)
    requires DistinctIds(stacks) && IsStage(stacks, p, d) && IsStage(stacks, q, d)
    ensures p == q
  {
    var ids := IdsAtDepth(StackGraph(stacks), d);
    LexTotalOn(ids);
    ListingUnique(IdsOf(p.stacks), IdsOf(q.stacks), ids, LexLeq);
    forall i | 0 <= i < |p.stacks| ensures p.stacks[i] == q.stacks[i] {
      assert p.stacks[i].id == IdsOf(p.stacks)[i] == IdsOf(q.stacks)[i] == q.stacks[i].id;
      SameStack(stacks, p.stacks[i], q.stacks[i]);
    }
  }

  // ---- deployment_plan ----

  lemma {:induction false} DepthsHaveNoGaps(g: Prereqs, n: Node, d: nat) returns (m: Node)
    requires Closed(g) && n in g && d <= Depth(g, n)
    ensures m in g && Depth(g, m) == d
    decreases Depth(g, n)
  {
    if d == Depth(g, n) {
      m := n;
    } else {
      var p := DepthParent(g, n);
      m := DepthsHaveNoGaps(g, p, d);
    }
  }

  function StacksOf(ids: seq<Node>, idToStack: map<Node, StackDef>): (r: seq<StackDef>)
    requires forall id | id in ids :: id in idToStack && idToStack[id].id == id
    ensures IdsOf(r) == ids && forall s | s in r :: s.id in idToStack && idToStack[s.id] == s
  {
    seq(|ids|, i requires 0 <= i < |ids| => idToStack[ids[i]])
  }

  /** The stacks of one depth, picked from the sorted ids. */
  function PickStage(sorted: seq<Node>, depth: map<Node, nat>, idToStack: map<Node, StackDef>, d: nat):
    (r: seq<StackDef>)
    requires forall id | id in sorted :: id in depth && id in idToStack && idToStack[id].id == id
    ensures IdsOf(r) == Filter(sorted, id => id in depth && depth[id] == d)
    ensures forall s | s in r :: s.id in idToStack && idToStack[s.id] == s
  {
    StacksOf(Filter(sorted, id => id in depth && depth[id] == d), idToStack)
  }

  method MaxDepth(nodes: seq<Node>, depth: map<Node, nat>) returns (maxDepth: nat)
    requires forall n :: n in nodes <==> n in depth
    ensures forall n | n in depth :: depth[n] <= maxDepth
    ensures if |nodes| == 0 then maxDepth == 0 else exists n :: n in depth && depth[n] == maxDepth
  {
    maxDepth := 0;
    for i := 0 to |nodes|
      invariant forall n | n in nodes[..i] :: depth[n] <= maxDepth
      invariant if i == 0 then maxDepth == 0 else exists n :: n in depth && depth[n] == maxDepth
    {
      assert nodes[i] in nodes;
      if i == 0 || depth[nodes[i]] > maxDepth {
        maxDepth := depth[nodes[i]];
      }
    }
  }

  /** Cutting the exact depths into stages gives the plan. */
  method CutStages(stacks: seq<StackDef>, idToStack: map<Node, StackDef>, depth: map<Node, nat>)
    returns (stages: seq<Stage>)
    requires DistinctIds(stacks) && idToStack == IdToStack(stacks)
    requires depth.Keys == Ids(stacks) && forall n | n in depth :: depth[n] == Depth(StackGraph(stacks), n)
    ensures IsPlan(stacks, stages)
  {
    ghost var g := StackGraph(stacks);
    var nodes := IdsInOrder(stacks);
    assert |nodes| == 0 <==> stacks == [] by {
      assert stacks != [] ==> stacks[0].id in nodes;
    }
    var maxDepth := MaxDepth(nodes, depth);
    var sorted := SortedIds(depth.Keys);
    stages := [];
    for d := 0 to maxDepth + 1
      invariant forall e | 0 <= e < |stages| :: IsStage(stacks, stages[e], e)
      invariant |stages| == if stacks == [] then 0 else d
    {
      var stageStacks := PickStage(sorted, depth, idToStack, d);
      StageListing(stacks, sorted, depth, stageStacks, d);
      StageInhabited(stacks, depth, maxDepth, d, stageStacks);
      if stageStacks != [] {
        stages := AppendStage(stacks, stages, d, stageStacks);
      }
    }
  }

  function AppendStage(ghost stacks: seq<StackDef>, stages: seq<Stage>, d: nat, stage: seq<StackDef>): (r: seq<Stage>)
    requires d == |stages| && IsStage(stacks, Stage(d, stage), d)
    requires forall e | 0 <= e < |stages| :: IsStage(stacks, stages[e], e)
    ensures |r| == |stages| + 1 && forall e | 0 <= e < |r| :: IsStage(stacks, r[e], e)
  {
    stages + [Stage(d, stage)]
  }

  /** Every depth up to the maximum occurs, so a stage is empty only when there are no stacks. */
  lemma StageInhabited(stacks: seq<StackDef>, depth: map<Node, nat>, maxDepth: nat, d: nat, stage: seq<StackDef>)
    requires depth.Keys == Ids(stacks) && forall n | n in depth :: depth[n] == Depth(StackGraph(stacks), n)
    requires if stacks == [] then maxDepth == 0 else exists n :: n in depth && depth[n] == maxDepth
    requires d <= maxDepth && IsListing(IdsOf(stage), IdsAtDepth(StackGraph(stacks), d), LexLeq)
    ensures stage != [] <==> stacks != []
  {
    if stage != [] {
      assert IdsOf(stage)[0] in IdsOf(stage);
    }
    if stacks != [] {
      GraphClosed(stacks);
      var deepest :| deepest in depth && depth[deepest] == maxDepth;
      var m := DepthsHaveNoGaps(StackGraph(stacks), deepest, d);
      assert m in IdsAtDepth(StackGraph(stacks), d);
      assert m in IdsOf(stage);
    }
  }

  lemma StageListing(stacks: seq<StackDef>, sorted: seq<Node>, depth: map<Node, nat>, stage: seq<StackDef>, d: nat)
    requires depth.Keys == Ids(stacks) && forall n | n in depth :: depth[n] == Depth(StackGraph(stacks), n)
    requires sorted == SortedIds(depth.Keys) && stage == PickStage(sorted, depth, IdToStack(stacks), d)
    ensures IsListing(IdsOf(stage), IdsAtDepth(StackGraph(stacks), d), LexLeq)
    ensures forall s | s in stage :: s in stacks
  {
    FilterAscending(sorted, id => id in depth && depth[id] == d, LexLeq);
  }

  /** The plan exists exactly for plannable Stackfiles; broken references are reported before cycles. */
  method DeploymentPlan(stacks: seq<StackDef>) returns (r: Result<seq<Stage>, StackfileError>)
    ensures r.Success? <==> Plannable(stacks)
    ensures r.Success? ==> IsPlan(stacks, r.value)
    ensures r.Failure? ==> (r.error.InvalidReferences? <==> !ValidReferences(stacks))
    ensures r.Failure? ==> (r.error.CyclicStacks? <==> ValidReferences(stacks))
    ensures r.Failure? && r.error.InvalidReferences? ==>
              forall e :: e in r.error.errors <==> exists s :: s in stacks && BrokenIn(s, Ids(stacks), e)
    ensures r.Failure? && r.error.CyclicStacks? ==>
              forall n :: n in r.error.nodes <==> n in Ids(stacks) && ReachesCycle(StackGraph(stacks), n)
  {
    var _ :- ValidateReferences(stacks);
    var _ :- DetectCycles(stacks);
    var stages := StagesOf(stacks);
    return Success(stages);
  }

  /** The plan of stacks that passed both checks. */
  method StagesOf(stacks: seq<StackDef>) returns (stages: seq<Stage>)
    requires Plannable(stacks)
    ensures IsPlan(stacks, stages)
  {
    var idToStack := IdToStack(stacks);
    var prerequisites := map id | id in idToStack :: idToStack[id].dependsOn;
    EdgesAreDependsOn(stacks);
    PrerequisitesAreGraph(stacks, prerequisites);
    AcyclicDepthsTotal(prerequisites);
    var depth, dequeued := LongestPathDepths(IdsInOrder(stacks), prerequisites);
    stages := CutStages(stacks, idToStack, depth);
  }
}
