/** The sweep the waves drive, over every interleaving: the groups of the current wave deploy their
    stacks side by side, each group in an order that respects the dependencies inside the group, and
    the next wave starts only when all of them have landed. */
module Sweep {
  import opened Ordering
  import opened Digraph
  import opened Stackfile
  import opened Kahn
  import opened Planner
  import opened Waves

  /** The current wave and the ids deployed so far, in order. */
  datatype State = State(wave: nat, log: seq<Node>)

  ghost predicate MayDeploy(stacks: seq<StackDef>, waves: seq<seq<string>>, st: State, s: StackDef) {
    && st.wave < |waves|
    && s in stacks && s.group in waves[st.wave]
    && s.id !in st.log
    && (forall t | t in stacks && t.group == s.group && t.id in s.dependsOn :: t.id in st.log)
  }

  ghost predicate WaveLanded(stacks: seq<StackDef>, waves: seq<seq<string>>, st: State) {
    && st.wave < |waves|
    && (forall s | s in stacks && s.group in waves[st.wave] :: s.id in st.log)
  }

  ghost predicate Step(stacks: seq<StackDef>, waves: seq<seq<string>>, st: State, st': State) {
    || (exists s :: MayDeploy(stacks, waves, st, s) && st' == State(st.wave, st.log + [s.id]))
    || (WaveLanded(stacks, waves, st) && st' == State(st.wave + 1, st.log))
  }

  ghost predicate IsRun(stacks: seq<StackDef>, waves: seq<seq<string>>, run: seq<State>) {
    && |run| > 0
    && run[0] == State(0, [])
    && (forall i | 1 <= i < |run| :: Step(stacks, waves, run[i - 1], run[i]))
  }

  ghost predicate Reachable(stacks: seq<StackDef>, waves: seq<seq<string>>, st: State) {
    exists run :: IsRun(stacks, waves, run) && run[|run| - 1] == st
  }

  /** No deployed stack was deployed before something it depends on. */
  ghost predicate Safe(stacks: seq<StackDef>, log: seq<Node>) {
    forall s, d, i | s in stacks && d in s.dependsOn && 0 <= i < |log| && log[i] == s.id :: d in log[..i]
  }

  // ---- What the waves give ----

  ghost predicate GroupedDependencies(stacks: seq<StackDef>) {
    forall s, t | s in stacks && t in stacks && s.group != "" && t.id in s.dependsOn :: t.group != ""
  }

  /** Accepted stacks together with their waves. */
  ghost predicate Swept(stacks: seq<StackDef>, waves: seq<seq<string>>) {
    Plannable(stacks) && exists plan :: AreWaves(stacks, plan, waves)
  }

  ghost function GroupDepth(stacks: seq<StackDef>, s: StackDef): nat
    requires s in stacks && s.group != ""
  {
    Depth(GroupGraph(stacks), s.group)
  }

  lemma {:induction false} DeepestNode(g: Prereqs, s: set<Node>) returns (n: Node)
    requires s != {} && s <= g.Keys
    ensures n in s && forall m | m in s :: Depth(g, m) <= Depth(g, n)
    decreases |s|
  {
    n :| n in s;
    var rest := s - {n};
    if rest != {} {
      var m := DeepestNode(g, rest);
      assert forall k | k in s :: k == n || k in rest;
      if Depth(g, n) < Depth(g, m) {
        n := m;
      }
    }
  }

  ghost function StageAt(stacks: seq<StackDef>, d: nat): Stage {
    Stage(d, StacksOf(SortedIds(IdsAtDepth(StackGraph(stacks), d)), IdToStack(stacks)))
  }

  lemma StageAtDepth(stacks: seq<StackDef>, d: nat, deepest: Node)
    requires Plannable(stacks) && deepest in StackGraph(stacks) && d <= Depth(StackGraph(stacks), deepest)
    ensures IsStage(stacks, StageAt(stacks, d), d)
  {
    GraphClosed(stacks);
    var n := DepthsHaveNoGaps(StackGraph(stacks), deepest, d);
    EmptyListing(IdsOf(StageAt(stacks, d).stacks), IdsAtDepth(StackGraph(stacks), d), LexLeq);
    assert n in IdsAtDepth(StackGraph(stacks), d);
  }

  /** Every plannable Stackfile has a plan. */
  lemma PlanExists(stacks: seq<StackDef>) returns (stages: seq<Stage>)
    requires Plannable(stacks)
    ensures IsPlan(stacks, stages)
  {
    var g := StackGraph(stacks);
    if g.Keys == {} {
      stages := [];
    } else {
      var deepest := DeepestNode(g, g.Keys);
      stages := seq(Depth(g, deepest) + 1, d requires 0 <= d => StageAt(stacks, d));
      forall d | 0 <= d < |stages| ensures IsStage(stacks, stages[d], d) {
        StageAtDepth(stacks, d, deepest);
      }
    }
  }

  lemma WaveAtDepth(stacks: seq<StackDef>, ordered: seq<string>, d: nat, deepest: string)
    requires (forall a :: a in ordered <==> a in Groups(stacks))
    requires deepest in GroupGraph(stacks) && d <= Depth(GroupGraph(stacks), deepest)
    ensures IsListing(SortWave(ordered, IdsAtDepth(GroupGraph(stacks), d)), IdsAtDepth(GroupGraph(stacks), d),
                      ByPosition(ordered))
    ensures SortWave(ordered, IdsAtDepth(GroupGraph(stacks), d)) != []
  {
    var n := DepthsHaveNoGaps(GroupGraph(stacks), deepest, d);
    assert n in IdsAtDepth(GroupGraph(stacks), d);
  }

  /** Every plannable Stackfile has waves. */
  lemma WavesExist(stacks: seq<StackDef>) returns (waves: seq<seq<string>>)
    requires Plannable(stacks)
    ensures Swept(stacks, waves)
  {
    var plan := PlanExists(stacks);
    PlanShowsGroups(stacks, plan);
    var g, ordered := GroupGraph(stacks), FirstAppearances(AllStacks(plan));
    if g.Keys == {} {
      waves := [[]];
      assert IdsAtDepth(g, 0) == {};
      assert AreWaves(stacks, plan, waves);
    } else {
      var deepest := DeepestNode(g, g.Keys);
      waves := seq(Depth(g, deepest) + 1, d requires 0 <= d => SortWave(ordered, IdsAtDepth(g, d)));
      forall d | 0 <= d < |waves|
        ensures IsListing(waves[d], IdsAtDepth(g, d), ByPosition(ordered)) && waves[d] != []
      {
        WaveAtDepth(stacks, ordered, d, deepest);
      }
      assert AreWaves(stacks, plan, waves);
    }
  }

  lemma WaveOfGroup(stacks: seq<StackDef>, waves: seq<seq<string>>, s: StackDef, d: nat)
    requires Swept(stacks, waves) && s in stacks && d < |waves|
    ensures s.group in waves[d] <==> s.group != "" && GroupDepth(stacks, s) == d
    ensures s.group != "" ==> GroupDepth(stacks, s) < |waves|
  {
    var plan :| AreWaves(stacks, plan, waves);
    assert s.group != "" <==> s.group in Groups(stacks);
    assert s.group in waves[d] <==> s.group in IdsAtDepth(GroupGraph(stacks), d);
  }

  // ---- Invariants over every run ----

  /** `id` is a stack of a group in one of the first `bound` waves. */
  ghost predicate InWaves(stacks: seq<StackDef>, id: Node, bound: nat) {
    exists s :: s in stacks && s.id == id && s.group != "" && GroupDepth(stacks, s) < bound
  }

  ghost predicate SweepInv(stacks: seq<StackDef>, waves: seq<seq<string>>, st: State) {
    && st.wave <= |waves|
    && Distinct(st.log)
    && (forall id | id in st.log :: InWaves(stacks, id, st.wave + 1))
    && (forall s | s in stacks && s.group != "" && GroupDepth(stacks, s) < st.wave :: s.id in st.log)
  }

  lemma DeployKeepsInv(stacks: seq<StackDef>, waves: seq<seq<string>>, st: State, s: StackDef)
    requires Swept(stacks, waves) && SweepInv(stacks, waves, st) && MayDeploy(stacks, waves, st, s)
    ensures SweepInv(stacks, waves, State(st.wave, st.log + [s.id]))
  {
    WaveOfGroup(stacks, waves, s, st.wave);
    assert InWaves(stacks, s.id, st.wave + 1);
    LoggedOneMore(st.log, s.id);
    forall id | id in st.log + [s.id] ensures InWaves(stacks, id, st.wave + 1) {
    }
  }

  lemma LoggedOneMore(log: seq<Node>, id: Node)
    requires Distinct(log) && id !in log
    ensures Distinct(log + [id]) && forall n :: n in log + [id] <==> n in log || n == id
  {
  }

  lemma AdvanceKeepsInv(stacks: seq<StackDef>, waves: seq<seq<string>>, st: State)
    requires Swept(stacks, waves) && SweepInv(stacks, waves, st) && WaveLanded(stacks, waves, st)
    ensures SweepInv(stacks, waves, State(st.wave + 1, st.log))
  {
    forall s | s in stacks && s.group != "" && GroupDepth(stacks, s) < st.wave + 1 ensures s.id in st.log {
      WaveOfGroup(stacks, waves, s, st.wave);
    }
    forall id | id in st.log ensures InWaves(stacks, id, st.wave + 2) {
      assert InWaves(stacks, id, st.wave + 1);
    }
  }

  lemma StepKeepsInv(stacks: seq<StackDef>, waves: seq<seq<string>>, st: State, st': State)
    requires Swept(stacks, waves) && SweepInv(stacks, waves, st) && Step(stacks, waves, st, st')
    ensures SweepInv(stacks, waves, st')
  {
    if s :| MayDeploy(stacks, waves, st, s) && st' == State(st.wave, st.log + [s.id]) {
      DeployKeepsInv(stacks, waves, st, s);
    } else {
      AdvanceKeepsInv(stacks, waves, st);
    }
  }

  lemma {:induction false} RunKeepsInv(stacks: seq<StackDef>, waves: seq<seq<string>>, run: seq<State>)
    requires Swept(stacks, waves) && IsRun(stacks, waves, run)
    ensures SweepInv(stacks, waves, run[|run| - 1])
    decreases |run|
  {
    if |run| > 1 {
      var front := run[..|run| - 1];
      RunKeepsInv(stacks, waves, front);
      StepKeepsInv(stacks, waves, run[|run| - 2], run[|run| - 1]);
    }
  }

  lemma ReachableInv(stacks: seq<StackDef>, waves: seq<seq<string>>, st: State)
    requires Swept(stacks, waves) && Reachable(stacks, waves, st)
    ensures SweepInv(stacks, waves, st)
  {
    var run :| IsRun(stacks, waves, run) && run[|run| - 1] == st;
    RunKeepsInv(stacks, waves, run);
  }

  lemma ReachStart(stacks: seq<StackDef>, waves: seq<seq<string>>)
    ensures Reachable(stacks, waves, State(0, []))
  {
    assert IsRun(stacks, waves, [State(0, [])]);
  }

  lemma ReachStep(stacks: seq<StackDef>, waves: seq<seq<string>>, st: State, st': State)
    requires Reachable(stacks, waves, st) && Step(stacks, waves, st, st')
    ensures Reachable(stacks, waves, st')
  {
    var run :| IsRun(stacks, waves, run) && run[|run| - 1] == st;
    var run' := run + [st'];
    forall i | 1 <= i < |run'| ensures Step(stacks, waves, run'[i - 1], run'[i]) {
      if i < |run| {
        assert run'[i - 1] == run[i - 1] && run'[i] == run[i];
      }
    }
    assert IsRun(stacks, waves, run') && run'[|run'| - 1] == st';
  }

  // ---- Safety when the projection is acyclic ----

  lemma NeededGroupIsShallower(stacks: seq<StackDef>, s: StackDef, t: StackDef)
    requires Acyclic(GroupGraph(stacks)) && s in stacks && t in stacks && s.group != "" && t.group != ""
    requires t.id in s.dependsOn && s.group != t.group
    ensures GroupDepth(stacks, t) < GroupDepth(stacks, s)
  {
    var g := GroupGraph(stacks);
    AcyclicIffGrounded(g);
    assert GroupEdge(stacks, s.group, t.group);
    assert t.group in g[s.group];
    DepthStep(g, s.group, t.group);
  }

  lemma DeployableHasDependencies(stacks: seq<StackDef>, waves: seq<seq<string>>, st: State, s: StackDef)
    requires Swept(stacks, waves) && GroupedDependencies(stacks) && Acyclic(GroupGraph(stacks))
    requires SweepInv(stacks, waves, st) && MayDeploy(stacks, waves, st, s)
    ensures forall d | d in s.dependsOn :: d in st.log
  {
    WaveOfGroup(stacks, waves, s, st.wave);
    forall d | d in s.dependsOn ensures d in st.log {
      var t :| t in stacks && t.id == d;
      if t.group != s.group {
        NeededGroupIsShallower(stacks, s, t);
      }
    }
  }

  lemma ExtendSafe(stacks: seq<StackDef>, log: seq<Node>, s: StackDef)
    requires DistinctIds(stacks) && s in stacks && Safe(stacks, log) && forall d | d in s.dependsOn :: d in log
    ensures Safe(stacks, log + [s.id])
  {
    var log' := log + [s.id];
    forall u, d, i | u in stacks && d in u.dependsOn && 0 <= i < |log'| && log'[i] == u.id ensures d in log'[..i] {
      if i < |log| {
        assert log'[..i] == log[..i];
      } else {
        SameStack(stacks, u, s);
        assert log'[..i] == log;
      }
    }
  }

  lemma StepKeepsSafe(stacks: seq<StackDef>, waves: seq<seq<string>>, st: State, st': State)
    requires Swept(stacks, waves) && GroupedDependencies(stacks) && Acyclic(GroupGraph(stacks))
    requires SweepInv(stacks, waves, st) && Step(stacks, waves, st, st') && Safe(stacks, st.log)
    ensures Safe(stacks, st'.log)
  {
    if s :| MayDeploy(stacks, waves, st, s) && st' == State(st.wave, st.log + [s.id]) {
      DeployableHasDependencies(stacks, waves, st, s);
      ExtendSafe(stacks, st.log, s);
    }
  }

  lemma {:induction false} RunKeepsSafe(stacks: seq<StackDef>, waves: seq<seq<string>>, run: seq<State>)
    requires Swept(stacks, waves) && GroupedDependencies(stacks) && Acyclic(GroupGraph(stacks))
    requires IsRun(stacks, waves, run)
    ensures Safe(stacks, run[|run| - 1].log)
    decreases |run|
  {
    if |run| > 1 {
      var front := run[..|run| - 1];
      RunKeepsSafe(stacks, waves, front);
      RunKeepsInv(stacks, waves, front);
      StepKeepsSafe(stacks, waves, run[|run| - 2], run[|run| - 1]);
    }
  }

  // ---- Progress and completion ----

  ghost function Pending(stacks: seq<StackDef>, group: string, log: seq<Node>): set<Node> {
    set s | s in stacks && s.group == group && s.id !in log :: s.id
  }

  /** A group of the current wave that has not landed can always deploy one more stack. */
  lemma GroupCanDeploy(stacks: seq<StackDef>, waves: seq<seq<string>>, st: State, group: string) returns (s: StackDef)
    requires Plannable(stacks) && st.wave < |waves| && group in waves[st.wave] && Pending(stacks, group, st.log) != {}
    ensures s.group == group && MayDeploy(stacks, waves, st, s)
  {
    var g, pending := StackGraph(stacks), Pending(stacks, group, st.log);
    var id := MinimalNode(g, pending);
    s :| s in stacks && s.group == group && s.id !in st.log && s.id == id;
    SameStack(stacks, s, IdToStack(stacks)[id]);
    GraphIsDependsOn(stacks, id);
    forall t | t in stacks && t.group == s.group && t.id in s.dependsOn ensures t.id in st.log {
      assert t.id in g[id] && t.id !in pending;
    }
  }

  /** No state before the last wave is stuck. */
  lemma NeverStuck(stacks: seq<StackDef>, waves: seq<seq<string>>, st: State) returns (st': State)
    requires Plannable(stacks) && st.wave < |waves|
    ensures Step(stacks, waves, st, st')
  {
    if WaveLanded(stacks, waves, st) {
      st' := State(st.wave + 1, st.log);
    } else {
      var u :| u in stacks && u.group in waves[st.wave] && u.id !in st.log;
      assert u.id in Pending(stacks, u.group, st.log);
      var s := GroupCanDeploy(stacks, waves, st, u.group);
      st' := State(st.wave, st.log + [s.id]);
    }
  }

  ghost function GroupedIds(stacks: seq<StackDef>): set<Node> {
    set s | s in stacks && s.group != "" :: s.id
  }

  lemma {:induction false} RunLength(stacks: seq<StackDef>, waves: seq<seq<string>>, run: seq<State>)
    requires IsRun(stacks, waves, run)
    ensures |run| == run[|run| - 1].wave + |run[|run| - 1].log| + 1
    decreases |run|
  {
    if |run| > 1 {
      RunLength(stacks, waves, run[..|run| - 1]);
    }
  }

  /** When the last wave has landed, every grouped stack was deployed, once, and nothing else was. */
  lemma FinalStateIsComplete(stacks: seq<StackDef>, waves: seq<seq<string>>, st: State)
    requires Swept(stacks, waves) && Reachable(stacks, waves, st)
    ensures Distinct(st.log) && (forall id | id in st.log :: id in GroupedIds(stacks))
    ensures st.wave == |waves| ==> forall id :: id in st.log <==> id in GroupedIds(stacks)
  {
    ReachableInv(stacks, waves, st);
    forall id | id in st.log ensures id in GroupedIds(stacks) {
      assert InWaves(stacks, id, st.wave + 1);
    }
    if st.wave == |waves| {
      forall id | id in GroupedIds(stacks) ensures id in st.log {
        var s :| s in stacks && s.group != "" && s.id == id;
        var plan :| AreWaves(stacks, plan, waves);
        assert s.group in Groups(stacks);
      }
    }
  }

  /** Runs cannot go on for ever: a run has at most one step per grouped stack and per wave. */
  lemma RunsAreBounded(stacks: seq<StackDef>, waves: seq<seq<string>>, run: seq<State>)
    requires Swept(stacks, waves) && IsRun(stacks, waves, run)
    ensures |run| <= |GroupedIds(stacks)| + |waves| + 1
  {
    var last := run[|run| - 1];
    RunLength(stacks, waves, run);
    ReachableInv(stacks, waves, last);
    FinalStateIsComplete(stacks, waves, last);
    DistinctSize(last.log);
    SubsetSameSize(Members(last.log), GroupedIds(stacks));
  }

  // ---- Driving the sweep to a chosen point ----

  ghost predicate GroupLanded(stacks: seq<StackDef>, group: string, log: seq<Node>) {
    forall s | s in stacks && s.group == group :: s.id in log
  }

  ghost predicate OfGroup(stacks: seq<StackDef>, id: Node, group: string) {
    exists s :: s in stacks && s.id == id && s.group == group
  }

  /** One group can land on its own, whatever the other groups of its wave do. */
  lemma {:induction false} LandGroup(stacks: seq<StackDef>, waves: seq<seq<string>>, st: State, group: string)
    returns (st': State)
    requires Plannable(stacks) && Reachable(stacks, waves, st) && st.wave < |waves| && group in waves[st.wave]
    ensures Reachable(stacks, waves, st') && st'.wave == st.wave && GroupLanded(stacks, group, st'.log)
    ensures forall id | id in st.log :: id in st'.log
    ensures forall id | id in st'.log :: id in st.log || OfGroup(stacks, id, group)
    decreases Pending(stacks, group, st.log)
  {
    if Pending(stacks, group, st.log) == {} {
      forall s | s in stacks && s.group == group ensures s.id in st.log {
        assert s.id !in Pending(stacks, group, st.log);
      }
      st' := st;
    } else {
      var s := GroupCanDeploy(stacks, waves, st, group);
      var next := State(st.wave, st.log + [s.id]);
      ReachStep(stacks, waves, st, next);
      assert s.id in Pending(stacks, group, st.log) && s.id !in Pending(stacks, group, next.log);
      st' := LandGroup(stacks, waves, next, group);
      assert OfGroup(stacks, s.id, group);
    }
  }

  lemma {:induction false} LandGroups(stacks: seq<StackDef>, waves: seq<seq<string>>, st: State, k: nat)
    returns (st': State)
    requires Plannable(stacks) && Reachable(stacks, waves, st) && st.wave < |waves| && k <= |waves[st.wave]|
    ensures Reachable(stacks, waves, st') && st'.wave == st.wave
    ensures forall i | 0 <= i < k :: GroupLanded(stacks, waves[st.wave][i], st'.log)
    decreases k
  {
    if k == 0 {
      st' := st;
    } else {
      var mid := LandGroups(stacks, waves, st, k - 1);
      st' := LandGroup(stacks, waves, mid, waves[st.wave][k - 1]);
    }
  }

  lemma LandedWave(stacks: seq<StackDef>, waves: seq<seq<string>>, st: State)
    requires st.wave < |waves|
    requires forall i | 0 <= i < |waves[st.wave]| :: GroupLanded(stacks, waves[st.wave][i], st.log)
    ensures WaveLanded(stacks, waves, st)
  {
    forall s | s in stacks && s.group in waves[st.wave] ensures s.id in st.log {
      var i :| 0 <= i < |waves[st.wave]| && waves[st.wave][i] == s.group;
      assert GroupLanded(stacks, waves[st.wave][i], st.log);
    }
  }

  lemma NextWaveIsReached(stacks: seq<StackDef>, waves: seq<seq<string>>, before: State) returns (st: State)
    requires Swept(stacks, waves) && Reachable(stacks, waves, before) && before.wave < |waves|
    ensures Reachable(stacks, waves, st) && st.wave == before.wave + 1
    ensures forall id | id in st.log :: InWaves(stacks, id, st.wave)
  {
    var landed := LandGroups(stacks, waves, before, |waves[before.wave]|);
    LandedWave(stacks, waves, landed);
    st := State(landed.wave + 1, landed.log);
    ReachStep(stacks, waves, landed, st);
    ReachableInv(stacks, waves, landed);
  }

  /** Every wave is reached, and nothing of it or of a later one is deployed when it starts. */
  lemma {:induction false} WaveIsReached(stacks: seq<StackDef>, waves: seq<seq<string>>, k: nat) returns (st: State)
    requires Swept(stacks, waves) && k <= |waves|
    ensures Reachable(stacks, waves, st) && st.wave == k
    ensures forall id | id in st.log :: InWaves(stacks, id, k)
    decreases k
  {
    if k == 0 {
      ReachStart(stacks, waves);
      st := State(0, []);
    } else {
      var before := WaveIsReached(stacks, waves, k - 1);
      st := NextWaveIsReached(stacks, waves, before);
    }
  }

  // ---- Exactly when the sweep is safe ----

  ghost predicate AlwaysSafe(stacks: seq<StackDef>, waves: seq<seq<string>>) {
    forall st | Reachable(stacks, waves, st) :: Safe(stacks, st.log)
  }

  /** A deployed stack whose dependency is nowhere in the log. */
  lemma MissingDependency(stacks: seq<StackDef>, waves: seq<seq<string>>, st: State, s: StackDef, d: Node)
    requires Reachable(stacks, waves, st) && s in stacks && d in s.dependsOn && s.id in st.log && d !in st.log
    ensures !AlwaysSafe(stacks, waves)
  {
    var i :| 0 <= i < |st.log| && st.log[i] == s.id;
    assert d !in st.log[..i];
    assert !Safe(stacks, st.log);
  }

  lemma OnlyStackOfId(stacks: seq<StackDef>, t: StackDef)
    requires DistinctIds(stacks) && t in stacks
    ensures forall u | u in stacks && u.id == t.id :: u == t
  {
    forall u | u in stacks && u.id == t.id ensures u == t {
      SameStack(stacks, t, u);
    }
  }

  lemma UngroupedDependencyBreaks(stacks: seq<StackDef>, waves: seq<seq<string>>)
    requires Swept(stacks, waves) && !GroupedDependencies(stacks)
    ensures !AlwaysSafe(stacks, waves)
  {
    var s, t :| s in stacks && t in stacks && s.group != "" && t.id in s.dependsOn && t.group == "";
    var st := WaveIsReached(stacks, waves, |waves|);
    FinalStateIsComplete(stacks, waves, st);
    assert s.id in GroupedIds(stacks);
    OnlyStackOfId(stacks, t);
    assert t.id !in GroupedIds(stacks);
    MissingDependency(stacks, waves, st, s, t.id);
  }

  /** If prerequisites were always strictly shallower there could be no cycle. */
  lemma {:induction false} DepthFallsAlongWalks(g: Prereqs, w: seq<Node>)
    requires IsWalk(g, w) && |w| > 1 && forall n, p | n in g && p in g && p in g[n] :: Depth(g, p) < Depth(g, n)
    ensures w[|w| - 1] in g && Depth(g, w[|w| - 1]) < Depth(g, w[0])
    decreases |w|
  {
    WalkStep(g, w, 1);
    assert Depth(g, w[1]) < Depth(g, w[0]);
    if |w| > 2 {
      DepthFallsAlongWalks(g, w[1..]);
    }
  }

  /** A cyclic projection has an edge that its depths do not respect. */
  lemma CyclicHasFlatEdge(g: Prereqs) returns (n: Node, p: Node)
    requires !Acyclic(g)
    ensures n in g && p in g && p in g[n] && Depth(g, n) <= Depth(g, p)
  {
    var w :| IsWalk(g, w) && |w| > 1 && w[0] == w[|w| - 1];
    if forall n, p | n in g && p in g && p in g[n] :: Depth(g, p) < Depth(g, n) {
      DepthFallsAlongWalks(g, w);
    } else {
      n, p :| n in g && p in g && p in g[n] && !(Depth(g, p) < Depth(g, n));
    }
  }

  lemma CyclicProjectionBreaks(stacks: seq<StackDef>, waves: seq<seq<string>>)
    requires Swept(stacks, waves) && !Acyclic(GroupGraph(stacks))
    ensures !AlwaysSafe(stacks, waves)
  {
    var g := GroupGraph(stacks);
    var n, p := CyclicHasFlatEdge(g);
    assert GroupEdge(stacks, n, p);
    var s, t :| s in stacks && t in stacks && s.group == n && t.group == p && t.id in s.dependsOn;
    WaveOfGroup(stacks, waves, s, 0);
    var st := WaveIsReached(stacks, waves, GroupDepth(stacks, s));
    WaveOfGroup(stacks, waves, s, st.wave);
    var st' := LandGroup(stacks, waves, st, n);
    OnlyStackOfId(stacks, t);
    assert !InWaves(stacks, t.id, st.wave) && !OfGroup(stacks, t.id, n);
    MissingDependency(stacks, waves, st', s, t.id);
  }

  /** Over every run of an accepted Stackfile, no stack is deployed before something it depends on, if
      and only if every dependency of a grouped stack is grouped and the projection has no cycle. */
  lemma SweepSafety(stacks: seq<StackDef>, waves: seq<seq<string>>)
    requires Swept(stacks, waves)
    ensures AlwaysSafe(stacks, waves) <==> GroupedDependencies(stacks) && Acyclic(GroupGraph(stacks))
  {
    if GroupedDependencies(stacks) && Acyclic(GroupGraph(stacks)) {
      forall st | Reachable(stacks, waves, st) ensures Safe(stacks, st.log) {
        var run :| IsRun(stacks, waves, run) && run[|run| - 1] == st;
        RunKeepsSafe(stacks, waves, run);
      }
    } else if !GroupedDependencies(stacks) {
      UngroupedDependencyBreaks(stacks, waves);
    } else {
      CyclicProjectionBreaks(stacks, waves);
    }
  }
}
