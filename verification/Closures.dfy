/** Planning a requested subset: the stacks it transitively needs, and the agreement of its plan
    with the plan of the whole Stackfile. */
module Closures {
  import opened Results
  import opened Ordering
  import opened Digraph
  import opened Stackfile
  import opened Planner

  /** The dict from stack name to id; a repeated name keeps the last entry. */
  function NameToId(stacks: seq<StackDef>): (m: map<string, Node>)
    ensures forall name | name in m :: m[name] in Ids(stacks)
    ensures forall name :: name in m <==> exists s :: s in stacks && s.name == name
  {
    if stacks == [] then map[]
    else
      var front, last := stacks[..|stacks| - 1], stacks[|stacks| - 1];
      assert stacks == front + [last];
      assert forall s :: s in stacks <==> s in front || s == last;
      NameToId(front)[last.name := last.id]
  }

  /** Of several stacks with one name the last is kept. */
  lemma {:induction false} NameToLastId(stacks: seq<StackDef>, i: nat)
    requires i < |stacks| && forall j | i < j < |stacks| :: stacks[j].name != stacks[i].name
    ensures stacks[i].name in NameToId(stacks) && NameToId(stacks)[stacks[i].name] == stacks[i].id
    decreases |stacks|
  {
    if i < |stacks| - 1 {
      NameToLastId(stacks[..|stacks| - 1], i);
    }
  }

  ghost predicate DistinctStackNames(stacks: seq<StackDef>) {
    forall i, j | 0 <= i < j < |stacks| :: stacks[i].name != stacks[j].name
  }

  /** Dependencies as declared, known or not. */
  ghost function DeclaredGraph(stacks: seq<StackDef>): Prereqs {
    map id | id in Ids(stacks) :: IdToStack(stacks)[id].dependsOn
  }

  /** The walk ends at `x` or at something that declares it. */
  ghost predicate LeadsTo(g: Prereqs, w: seq<Node>, x: Node) {
    IsWalk(g, w) && (x == w[|w| - 1] || (w[|w| - 1] in g && x in g[w[|w| - 1]]))
  }

  /** `x` is a seed or is reached from one along declared dependencies; it need not be declared itself. */
  ghost predicate Needed(g: Prereqs, seeds: set<Node>, x: Node) {
    exists w :: LeadsTo(g, w, x) && w[0] in seeds
  }

  lemma NeededStep(g: Prereqs, seeds: set<Node>, x: Node, d: Node)
    requires Needed(g, seeds, x) && x in g && d in g[x]
    ensures Needed(g, seeds, d)
  {
    var w :| LeadsTo(g, w, x) && w[0] in seeds;
    if x != w[|w| - 1] {
      var last := w[|w| - 1];
      WalkStep(g, w, |w| - 1);
      assert [last, x][1..] == [x];
      assert IsWalk(g, [last, x]);
      WalkJoin(g, w, [last, x]);
      var v := w + [last, x][1..];
      assert v[|v| - 1] == x && v[0] == w[0];
      assert LeadsTo(g, v, d);
    } else {
      assert LeadsTo(g, w, d);
    }
  }

  lemma SeedNeeded(g: Prereqs, seeds: set<Node>, x: Node)
    requires x in seeds && x in g
    ensures Needed(g, seeds, x)
  {
    assert LeadsTo(g, [x], x);
  }

  /** What is needed is contained in every set that holds the seeds and their dependencies. */
  lemma NeededIsLeast(g: Prereqs, seeds: set<Node>, s: set<Node>, x: Node)
    requires seeds <= s && (forall n, d | n in s && n in g && d in g[n] :: d in s)
    requires Needed(g, seeds, x)
    ensures x in s
  {
    var w :| LeadsTo(g, w, x) && w[0] in seeds;
    WalkStays(g, w, s);
    WalkStep(g, w, |w| - 1);
    assert w[|w| - 1] in w;
  }

  ghost function SeedIds(stacks: seq<StackDef>, requested: seq<string>): set<Node> {
    set name | name in requested && name in NameToId(stacks) :: NameToId(stacks)[name]
  }

  ghost predicate NeededBy(stacks: seq<StackDef>, requested: seq<string>, x: Node) {
    Needed(DeclaredGraph(stacks), SeedIds(stacks, requested), x)
  }

  /** The ids of the stacks that bear a requested name. */
  ghost function RequestedIds(stacks: seq<StackDef>, requested: seq<string>): set<Node> {
    set s | s in stacks && s.name in requested :: s.id
  }

  /** With distinct names the seeds are the ids of the requested stacks. */
  lemma SeedsAreRequested(stacks: seq<StackDef>, requested: seq<string>)
    requires DistinctStackNames(stacks)
    ensures SeedIds(stacks, requested) == RequestedIds(stacks, requested)
  {
    forall s | s in stacks ensures s.name in NameToId(stacks) && NameToId(stacks)[s.name] == s.id {
      var i :| 0 <= i < |stacks| && stacks[i] == s;
      NameToLastId(stacks, i);
    }
    forall x | x in SeedIds(stacks, requested) ensures x in RequestedIds(stacks, requested) {
      var name :| name in requested && name in NameToId(stacks) && NameToId(stacks)[name] == x;
      var s :| s in stacks && s.name == name;
    }
  }

  /** What a stack declares, for distinct ids. */
  lemma DeclaredDependencies(stacks: seq<StackDef>)
    requires DistinctIds(stacks)
    ensures forall s | s in stacks :: s.id in DeclaredGraph(stacks) && DeclaredGraph(stacks)[s.id] == s.dependsOn
  {
    forall s | s in stacks ensures s.id in DeclaredGraph(stacks) && DeclaredGraph(stacks)[s.id] == s.dependsOn {
      SameStack(stacks, s, IdToStack(stacks)[s.id]);
    }
  }

  /** What resolving returns, for distinct names: every requested stack, and exactly the stacks that those
      need. */
  lemma RequestedAreResolved(stacks: seq<StackDef>, requested: seq<string>)
    requires DistinctStackNames(stacks)
    ensures IsResolution(stacks, requested, NeededStacks(stacks, requested))
  {
    forall s ensures s in NeededStacks(stacks, requested) <==>
                       s in stacks && Needed(DeclaredGraph(stacks), RequestedIds(stacks, requested), s.id)
    {
      NeededMember(stacks, requested, s);
    }
    forall s | s in stacks && s.name in requested ensures s in NeededStacks(stacks, requested) {
      SeedNeeded(DeclaredGraph(stacks), RequestedIds(stacks, requested), s.id);
    }
  }

  lemma NeededMember(stacks: seq<StackDef>, requested: seq<string>, s: StackDef)
    requires DistinctStackNames(stacks)
    ensures s in NeededStacks(stacks, requested) <==>
              s in stacks && Needed(DeclaredGraph(stacks), RequestedIds(stacks, requested), s.id)
  {
    SeedsAreRequested(stacks, requested);
  }

  /** Unknown names are reported as often as they are requested, in that order. */
  lemma UnknownNext(requested: seq<string>, name: string, names: map<string, Node>)
    ensures UnknownIn(requested + [name], names) ==
            UnknownIn(requested, names) + if name in names then [] else [name]
  {
    FilterOfBoth(requested, [name], n => n !in names);
    FilterOfOne(name, n => n !in names);
  }

  function UnknownIn(requested: seq<string>, names: map<string, Node>): (r: seq<string>)
    ensures forall n :: n in r <==> n in requested && n !in names
  {
    Filter(requested, n => n !in names)
  }

  /** Appends the dependencies not yet needed, repeats included. */
  method QueueDependencies(deps: seq<Node>, needed: set<Node>, queue: seq<Node>) returns (queue': seq<Node>)
    ensures forall x :: x in queue' <==> x in queue || (x in deps && x !in needed)
  {
    queue' := queue;
    for i := 0 to |deps|
      invariant forall x :: x in queue' <==> x in queue || (x in deps[..i] && x !in needed)
    {
      if deps[i] !in needed {
        queue' := queue' + [deps[i]];
      }
    }
  }

  /** Every seed and every dependency of a needed id is needed or still queued. */
  ghost predicate Frontier(g: Prereqs, seeds: set<Node>, needed: set<Node>, queue: seq<Node>) {
    && needed <= g.Keys
    && (forall x | x in needed || x in queue :: Needed(g, seeds, x))
    && (forall x | x in seeds :: x in needed || x in queue)
    && (forall x, d | x in needed && d in g[x] :: d in needed || d in queue)
  }

  lemma FrontierStep(g: Prereqs, seeds: set<Node>, needed: set<Node>, queue: seq<Node>, queue': seq<Node>)
    requires queue != [] && Frontier(g, seeds, needed, queue) && queue[0] in g
    requires forall x :: x in queue' <==> x in queue[1..] || (x in g[queue[0]] && x !in needed + {queue[0]})
    ensures Frontier(g, seeds, needed + {queue[0]}, queue')
  {
    var sid := queue[0];
    assert queue == [sid] + queue[1..];
    forall x | x in queue' ensures Needed(g, seeds, x) {
      if x !in queue[1..] {
        NeededStep(g, seeds, sid, x);
      }
    }
  }

  /** The worklist: what it returns is what the seeds need, or an undeclared id among it. */
  method CollectNeeded(idToStack: map<Node, StackDef>, ghost g: Prereqs, ghost seeds: set<Node>, queue: seq<Node>)
    returns (r: Result<set<Node>, StackfileError>)
    requires g.Keys == idToStack.Keys && forall id | id in g :: g[id] == idToStack[id].dependsOn
    requires (forall x :: x in queue <==> x in seeds) && seeds <= g.Keys
    ensures r.Success? ==> forall x :: x in r.value <==> Needed(g, seeds, x)
    ensures r.Success? ==> r.value <= g.Keys
    ensures r.Failure? ==> r.error.MissingStack? && Needed(g, seeds, r.error.id) && r.error.id !in g
  {
    var needed: set<Node>, queue := {}, queue;
    forall x | x in seeds ensures Needed(g, seeds, x) {
      SeedNeeded(g, seeds, x);
    }
    while queue != []
      invariant Frontier(g, seeds, needed, queue)
      decreases g.Keys - needed, |queue|
    {
      var sid := queue[0];
      assert queue == [sid] + queue[1..];
      if sid in needed {
        queue := queue[1..];
        continue;
      }
      if sid !in idToStack {
        return Failure(MissingStack(sid));
      }
      var queue' := QueueDependencies(idToStack[sid].dependsOn, needed + {sid}, queue[1..]);
      FrontierStep(g, seeds, needed, queue, queue');
      needed, queue := needed + {sid}, queue';
    }
    forall x | Needed(g, seeds, x) ensures x in needed {
      NeededIsLeast(g, seeds, needed, x);
    }
    return Success(needed);
  }

  /** The ids of the requested names, in the order of the request. */
  function RequestQueue(requested: seq<string>, nameToId: map<string, Node>): (queue: seq<Node>)
    requires forall n | n in requested :: n in nameToId
    ensures forall x :: x in queue <==> exists n :: n in requested && nameToId[n] == x
  {
    var queue := seq(|requested|, i requires 0 <= i < |requested| => nameToId[requested[i]]);
    assert forall x | x in queue :: exists i :: 0 <= i < |requested| && queue[i] == x;
    assert forall n | n in requested ::
        exists i :: 0 <= i < |requested| && requested[i] == n && queue[i] == nameToId[n];
    queue
  }

  /** Every requested stack, and exactly the stacks that the requested ones need. */
  ghost predicate IsResolution(stacks: seq<StackDef>, requested: seq<string>, resolved: seq<StackDef>) {
    && (forall s | s in stacks && s.name in requested :: s in resolved)
    && (forall s :: s in resolved <==>
          s in stacks && Needed(DeclaredGraph(stacks), RequestedIds(stacks, requested), s.id))
  }

  /** The needed stacks, in declaration order. */
  ghost function NeededStacks(stacks: seq<StackDef>, requested: seq<string>): seq<StackDef> {
    Filter(stacks, (s: StackDef) => NeededBy(stacks, requested, s.id))
  }

  /** Exactly the needed stacks, in declaration order. Unknown names are reported first; a needed id
      that no stack declares is a failed lookup, since references are validated only afterwards. */
  method ResolveStacks(allStacks: seq<StackDef>, requested: seq<string>)
    returns (r: Result<seq<StackDef>, StackfileError>)
    ensures r.Success? ==> r.value == NeededStacks(allStacks, requested)
    ensures r.Success? && DistinctStackNames(allStacks) ==> IsResolution(allStacks, requested, r.value)
    ensures r.Success? <==> (forall n | n in requested :: n in NameToId(allStacks)) &&
                            (forall x | NeededBy(allStacks, requested, x) :: x in Ids(allStacks))
    ensures r.Failure? && !(forall n | n in requested :: n in NameToId(allStacks)) ==>
              r.error == UnknownNames(UnknownIn(requested, NameToId(allStacks)))
    ensures r.Failure? && (forall n | n in requested :: n in NameToId(allStacks)) ==>
              r.error.MissingStack? && NeededBy(allStacks, requested, r.error.id) && r.error.id !in Ids(allStacks)
  {
    var nameToId := NameToId(allStacks);
    var unknown := UnknownIn(requested, nameToId);
    if unknown != [] {
      assert unknown[0] in unknown;
      return Failure(UnknownNames(unknown));
    }
    assert forall n | n in requested :: n !in unknown;
    r := ResolveKnown(allStacks, requested);
  }

  method ResolveKnown(allStacks: seq<StackDef>, requested: seq<string>)
    returns (r: Result<seq<StackDef>, StackfileError>)
    requires forall n | n in requested :: n in NameToId(allStacks)
    ensures r.Success? ==> r.value == NeededStacks(allStacks, requested)
    ensures r.Success? && DistinctStackNames(allStacks) ==> IsResolution(allStacks, requested, r.value)
    ensures r.Success? <==> forall x | NeededBy(allStacks, requested, x) :: x in Ids(allStacks)
    ensures r.Failure? ==>
              r.error.MissingStack? && NeededBy(allStacks, requested, r.error.id) && r.error.id !in Ids(allStacks)
  {
    ghost var g, seeds := DeclaredGraph(allStacks), SeedIds(allStacks, requested);
    var queue := RequestQueue(requested, NameToId(allStacks));
    var needed :- CollectNeeded(IdToStack(allStacks), g, seeds, queue);
    FilterAgrees(allStacks, (s: StackDef) => s.id in needed, (s: StackDef) => NeededBy(allStacks, requested, s.id));
    if DistinctStackNames(allStacks) {
      RequestedAreResolved(allStacks, requested);
    }
    return Success(Filter(allStacks, (s: StackDef) => s.id in needed));
  }

  lemma {:induction false} FilterAgrees<T(!new)>(q: seq<T>, p: T -> bool, p': T -> bool)
    requires forall x | x in q :: p(x) == p'(x)
    ensures Filter(q, p) == Filter(q, p')
    decreases |q|
  {
    if q != [] {
      FilterAgrees(q[1..], p, p');
    }
  }

  // ---- The plan of a subset is the full plan, filtered ----

  ghost function Select(stacks: seq<StackDef>, ids: set<Node>): seq<StackDef> {
    Filter(stacks, (s: StackDef) => s.id in ids)
  }

  ghost predicate KeepsDependencies(stacks: seq<StackDef>, ids: set<Node>) {
    forall s, d | s in stacks && s.id in ids && d in s.dependsOn :: d in ids
  }

  /** What resolving returns is a selection that keeps its dependencies. */
  lemma ResolvedSelection(stacks: seq<StackDef>, requested: seq<string>) returns (ids: set<Node>)
    requires DistinctIds(stacks) && (forall s, d | s in stacks && d in s.dependsOn :: d in Ids(stacks))
    ensures ids <= Ids(stacks) && KeepsDependencies(stacks, ids)
    ensures NeededStacks(stacks, requested) == Select(stacks, ids)
  {
    var g, seeds := DeclaredGraph(stacks), SeedIds(stacks, requested);
    ids := set id | id in Ids(stacks) && Needed(g, seeds, id);
    forall s, d | s in stacks && s.id in ids && d in s.dependsOn ensures d in ids {
      SameStack(stacks, s, IdToStack(stacks)[s.id]);
      NeededStep(g, seeds, s.id, d);
    }
    FilterAgrees(stacks, (s: StackDef) => NeededBy(stacks, requested, s.id), (s: StackDef) => s.id in ids);
  }

  lemma {:induction false} SelectDistinct(stacks: seq<StackDef>, ids: set<Node>)
    requires DistinctIds(stacks)
    ensures DistinctIds(Select(stacks, ids))
    decreases |stacks|
  {
    if stacks != [] {
      SelectDistinct(stacks[1..], ids);
      forall s | s in Select(stacks[1..], ids) ensures s.id != stacks[0].id {
        assert s in stacks[1..];
        var i :| 0 <= i < |stacks| - 1 && stacks[1..][i] == s;
        assert stacks[i + 1] == s;
      }
    }
  }

  lemma SelectedGraph(stacks: seq<StackDef>, ids: set<Node>)
    requires DistinctIds(stacks) && ids <= Ids(stacks) && KeepsDependencies(stacks, ids)
    ensures DistinctIds(Select(stacks, ids)) && Ids(Select(stacks, ids)) == ids
    ensures IsClosedPart(StackGraph(stacks), StackGraph(Select(stacks, ids)))
  {
    var sub := Select(stacks, ids);
    SelectDistinct(stacks, ids);
    forall id | id in ids ensures id in Ids(sub) {
      var s :| s in stacks && s.id == id;
      assert s in sub;
    }
    assert Ids(sub) == ids;
    forall id | id in ids ensures StackGraph(sub)[id] == StackGraph(stacks)[id] {
      SameStack(stacks, IdToStack(stacks)[id], IdToStack(sub)[id]);
      GraphIsDependsOn(stacks, id);
      GraphIsDependsOn(sub, id);
    }
    GraphClosed(sub);
  }

  /** A subset of a plannable Stackfile that keeps its dependencies keeps every depth. */
  lemma SubsetDepths(stacks: seq<StackDef>, ids: set<Node>)
    requires Plannable(stacks) && ids <= Ids(stacks) && KeepsDependencies(stacks, ids)
    ensures StackGraph(Select(stacks, ids)).Keys == ids
    ensures forall id | id in ids :: Depth(StackGraph(Select(stacks, ids)), id) == Depth(StackGraph(stacks), id)
  {
    var sub := Select(stacks, ids);
    SelectedGraph(stacks, ids);
    forall id | id in ids ensures Depth(StackGraph(sub), id) == Depth(StackGraph(stacks), id) {
      PartDepth(StackGraph(stacks), StackGraph(sub), id);
    }
  }

  /** It can be planned exactly when no parameter of it refers to a stack outside it. */
  lemma SubsetPlannable(stacks: seq<StackDef>, ids: set<Node>)
    requires Plannable(stacks) && ids <= Ids(stacks) && KeepsDependencies(stacks, ids)
    ensures Plannable(Select(stacks, ids)) <==>
              forall s, p | s in stacks && s.id in ids && p in s.parameters && p.crossStackRef.Some? ::
                p.crossStackRef.value in ids
  {
    SelectedGraph(stacks, ids);
    PartAcyclic(StackGraph(stacks), StackGraph(Select(stacks, ids)));
  }

  lemma SubsetAtDepth(stacks: seq<StackDef>, ids: set<Node>, d: nat)
    requires Plannable(stacks) && ids <= Ids(stacks) && KeepsDependencies(stacks, ids)
    ensures forall id :: id in IdsAtDepth(StackGraph(Select(stacks, ids)), d) <==>
                         id in ids && id in IdsAtDepth(StackGraph(stacks), d)
  {
    SubsetDepths(stacks, ids);
  }

  lemma {:induction false} SelectIds(stacks: seq<StackDef>, ids: set<Node>)
    ensures IdsOf(Select(stacks, ids)) == Filter(IdsOf(stacks), id => id in ids)
    decreases |stacks|
  {
    if stacks != [] {
      var rest := stacks[1..];
      SelectIds(rest, ids);
      assert stacks == [stacks[0]] + rest;
      IdsOfCons(stacks[0], rest);
      FilterFirst(stacks[0].id, IdsOf(rest), ids);
      IdsOfCons(stacks[0], Select(rest, ids));
    }
  }

  lemma IdsOfCons(s: StackDef, rest: seq<StackDef>)
    ensures IdsOf([s] + rest) == [s.id] + IdsOf(rest)
  {
  }

  lemma FilterFirst(x: Node, rest: seq<Node>, ids: set<Node>)
    ensures Filter([x] + rest, id => id in ids) == (if x in ids then [x] else []) + Filter(rest, id => id in ids)
  {
    assert ([x] + rest)[1..] == rest;
  }

  lemma SelectedStage(stacks: seq<StackDef>, ids: set<Node>, stage: Stage, d: nat)
    requires Plannable(stacks) && ids <= Ids(stacks) && KeepsDependencies(stacks, ids)
    requires IsStage(stacks, stage, d)
    ensures IsListing(IdsOf(Select(stage.stacks, ids)), IdsAtDepth(StackGraph(Select(stacks, ids)), d), LexLeq)
    ensures forall s | s in Select(stage.stacks, ids) :: s in Select(stacks, ids)
  {
    SubsetAtDepth(stacks, ids, d);
    SelectIds(stage.stacks, ids);
    FilterAscending(IdsOf(stage.stacks), id => id in ids, LexLeq);
  }

  /** Stage by stage, the plan of the subset is the full plan restricted to the subset; the full plan's
      remaining stages hold nothing of it. */
  lemma SubsetPlanAgrees(stacks: seq<StackDef>, ids: set<Node>, full: seq<Stage>, part: seq<Stage>)
    requires Plannable(stacks) && ids <= Ids(stacks) && KeepsDependencies(stacks, ids)
    requires IsPlan(stacks, full) && IsPlan(Select(stacks, ids), part)
    ensures |part| <= |full|
    ensures forall d | 0 <= d < |full| ::
              Select(full[d].stacks, ids) == if d < |part| then part[d].stacks else []
  {
    var sub := Select(stacks, ids);
    SelectDistinct(stacks, ids);
    SubsetLength(stacks, ids, full, part);
    forall d | 0 <= d < |full| ensures Select(full[d].stacks, ids) == if d < |part| then part[d].stacks else [] {
      SelectedStage(stacks, ids, full[d], d);
      var q := Select(full[d].stacks, ids);
      if q != [] {
        assert IdsOf(q)[0] in IdsOf(q);
        assert IsStage(sub, Stage(d, q), d);
        StageUnique(sub, Stage(d, q), part[d], d);
      } else if d < |part| {
        EmptyListing(IdsOf(q), IdsAtDepth(StackGraph(sub), d), LexLeq);
        EmptyListing(IdsOf(part[d].stacks), IdsAtDepth(StackGraph(sub), d), LexLeq);
      }
    }
  }

  lemma SubsetLength(stacks: seq<StackDef>, ids: set<Node>, full: seq<Stage>, part: seq<Stage>)
    requires Plannable(stacks) && ids <= Ids(stacks) && KeepsDependencies(stacks, ids)
    requires IsPlan(stacks, full) && IsPlan(Select(stacks, ids), part)
    ensures |part| <= |full|
  {
    if |part| > 0 {
      var last := |part| - 1;
      var id := IdsOf(part[last].stacks)[0];
      assert id in IdsOf(part[last].stacks);
      SubsetAtDepth(stacks, ids, last);
    }
  }
}
