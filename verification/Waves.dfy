/** Projecting the stack graph onto groups, and bucketing the groups into waves. */
module Waves {
  import opened Results
  import opened Ordering
  import opened Digraph
  import opened Stackfile
  import opened Kahn
  import opened LongestPaths
  import opened Planner

  // ---- The group projection ----

  ghost function Groups(stacks: seq<StackDef>): set<string> {
    set s | s in stacks && s.group != "" :: s.group
  }

  /** Some stack of `a` depends on a stack of `b`. */
  ghost predicate GroupEdge(stacks: seq<StackDef>, a: string, b: string) {
    exists s, t :: s in stacks && t in stacks && s.group == a && t.group == b && t.id in s.dependsOn
  }

  ghost function GroupNeeds(stacks: seq<StackDef>, a: string): set<string> {
    set b | b in Groups(stacks) && b != a && GroupEdge(stacks, a, b)
  }

  ghost function GroupGraph(stacks: seq<StackDef>): (g: Prereqs)
    ensures g.Keys == Groups(stacks) && Closed(g)
    ensures forall a, b | a in g :: b in g[a] <==> b in Groups(stacks) && b != a && GroupEdge(stacks, a, b)
  {
    map a | a in Groups(stacks) :: SortedIds(GroupNeeds(stacks, a))
  }

  /** Groups that get no depth: all their prerequisites, of which there are some, reach a cycle. */
  ghost function Stranded(stacks: seq<StackDef>): set<string> {
    Groups(stacks) - DepthedNodes(GroupGraph(stacks))
  }

  lemma StrandedMeaning(stacks: seq<StackDef>, a: string)
    ensures a in Stranded(stacks) <==>
              a in Groups(stacks) && GroupNeeds(stacks, a) != {} &&
              forall b | b in GroupNeeds(stacks, a) :: ReachesCycle(GroupGraph(stacks), b)
  {
    var g := GroupGraph(stacks);
    if a in Groups(stacks) {
      EmptyListing(g[a], GroupNeeds(stacks, a), LexLeq);
    }
  }

  function IdToGroup(stacks: seq<StackDef>): (m: map<Node, string>) {
    var byId := IdToStack(stacks);
    map id | id in byId && byId[id].group != "" :: byId[id].group
  }

  lemma IdToGroupMeaning(stacks: seq<StackDef>, id: Node, b: string)
    requires DistinctIds(stacks)
    ensures id in IdToGroup(stacks) && IdToGroup(stacks)[id] == b <==>
              b != "" && exists t :: t in stacks && t.id == id && t.group == b
  {
    if t :| t in stacks && t.id == id && t.group == b {
      SameStack(stacks, t, IdToStack(stacks)[id]);
    }
  }

  /** Keys in insertion order, values as sets: the dict the projection fills. */
  datatype Projection = Projection(order: seq<string>, needs: map<string, set<string>>)
  {
    ghost predicate Valid() {
      Distinct(order) && (forall a :: a in order <==> a in needs)
    }

    function SetDefault(a: string): Projection {
      if a in needs then this else Projection(order + [a], needs[a := {}])
    }

    function Add(a: string, b: string): Projection
      requires a in needs
    {
      Projection(order, needs[a := needs[a] + {b}]).SetDefault(b)
    }
  }

  /** One of the first `j` dependencies of `s` makes its group `a` need `b`. */
  ghost predicate Feeds(m: map<Node, string>, s: StackDef, j: nat, a: string, b: string)
    requires j <= |s.dependsOn|
  {
    s.group == a && a != b && exists d :: d in s.dependsOn[..j] && d in m && m[d] == b
  }

  ghost predicate FedBefore(m: map<Node, string>, stacks: seq<StackDef>, i: nat, a: string, b: string)
    requires i <= |stacks|
  {
    exists k :: 0 <= k < i && Feeds(m, stacks[k], |stacks[k].dependsOn|, a, b)
  }

  ghost predicate Fed(m: map<Node, string>, stacks: seq<StackDef>, i: nat, j: nat, a: string, b: string)
    requires i <= |stacks| && (i < |stacks| ==> j <= |stacks[i].dependsOn|)
  {
    FedBefore(m, stacks, i, a, b) || (i < |stacks| && Feeds(m, stacks[i], j, a, b))
  }

  /** The projection after `i` stacks and `j` dependencies of the next. */
  ghost predicate Projected(m: map<Node, string>, stacks: seq<StackDef>, i: nat, j: nat, p: Projection)
    requires i <= |stacks| && (i < |stacks| ==> j <= |stacks[i].dependsOn|)
  {
    && p.Valid()
    && p.needs.Keys <= Groups(stacks)
    && (forall k | 0 <= k < i && stacks[k].group != "" :: stacks[k].group in p.needs)
    && (forall a, b | a in p.needs && b in p.needs[a] :: b in p.needs)
    && (forall a, b | a in p.needs :: b in p.needs[a] <==> Fed(m, stacks, i, j, a, b))
    && (forall a, b | FedBefore(m, stacks, i, a, b) && a != "" :: a in p.needs)
  }

  lemma FeedsStep(m: map<Node, string>, s: StackDef, j: nat, a: string, b: string)
    requires j < |s.dependsOn|
    ensures Feeds(m, s, j + 1, a, b) <==>
              Feeds(m, s, j, a, b) || (s.group == a && a != b && s.dependsOn[j] in m && m[s.dependsOn[j]] == b)
  {
    assert s.dependsOn[..j + 1] == s.dependsOn[..j] + [s.dependsOn[j]];
  }

  lemma SetDefaultProjected(m: map<Node, string>, stacks: seq<StackDef>, i: nat, p: Projection)
    requires i < |stacks| && stacks[i].group != "" && Projected(m, stacks, i, 0, p)
    ensures Projected(m, stacks, i, 0, p.SetDefault(stacks[i].group))
  {
    assert stacks[i] in stacks;
  }

  lemma AddMeaning(p: Projection, a: string, b: string)
    requires p.Valid() && a in p.needs
    ensures var q := p.Add(a, b);
            && q.Valid() && q.needs.Keys == p.needs.Keys + {b}
            && (forall c | c in q.needs ::
                  q.needs[c] == (if c in p.needs then p.needs[c] else {}) + (if c == a then {b} else {}))
  {
  }

  lemma FedStep(m: map<Node, string>, stacks: seq<StackDef>, i: nat, j: nat, a: string, b: string)
    requires i < |stacks| && j < |stacks[i].dependsOn|
    ensures var d := stacks[i].dependsOn[j];
            Fed(m, stacks, i, j + 1, a, b) <==>
            Fed(m, stacks, i, j, a, b) || (stacks[i].group == a && a != b && d in m && m[d] == b)
  {
    FeedsStep(m, stacks[i], j, a, b);
  }

  lemma DependencyProjected(m: map<Node, string>, stacks: seq<StackDef>, i: nat, j: nat, p: Projection, q: Projection)
    requires i < |stacks| && j < |stacks[i].dependsOn| && stacks[i].group in p.needs
    requires Projected(m, stacks, i, j, p)
    requires forall d | d in m :: m[d] in Groups(stacks)
    requires var d, a := stacks[i].dependsOn[j], stacks[i].group;
             q == if d in m && m[d] != a then p.Add(a, m[d]) else p
    ensures Projected(m, stacks, i, j + 1, q)
  {
    var d, g := stacks[i].dependsOn[j], stacks[i].group;
    if d in m && m[d] != g {
      AddMeaning(p, g, m[d]);
    }
    forall a, b | a in q.needs ensures b in q.needs[a] <==> Fed(m, stacks, i, j + 1, a, b) {
      FedStep(m, stacks, i, j, a, b);
      if a !in p.needs {
        assert !FedBefore(m, stacks, i, a, b) by {
          assert a != "";
        }
        assert !Fed(m, stacks, i, j, a, b);
      }
    }
    forall a, b | a in q.needs && b in q.needs[a] ensures b in q.needs {
    }
  }

  lemma NextProjected(m: map<Node, string>, stacks: seq<StackDef>, i: nat, p: Projection)
    requires i < |stacks| && Projected(m, stacks, i, |stacks[i].dependsOn|, p)
    requires stacks[i].group == "" || stacks[i].group in p.needs
    requires "" !in p.needs
    ensures Projected(m, stacks, i + 1, 0, p)
  {
    forall a, b ensures FedBefore(m, stacks, i + 1, a, b) <==>
                        FedBefore(m, stacks, i, a, b) || Feeds(m, stacks[i], |stacks[i].dependsOn|, a, b)
    {
    }
  }

  method ProjectStack(stacks: seq<StackDef>, i: nat, idToGroup: map<Node, string>, p: Projection)
    returns (q: Projection)
    requires i < |stacks| && (forall d | d in idToGroup :: idToGroup[d] in Groups(stacks))
    requires Projected(idToGroup, stacks, i, 0, p)
    ensures Projected(idToGroup, stacks, i + 1, 0, q)
  {
    var stack := stacks[i];
    q := p;
    if stack.group != "" {
      SetDefaultProjected(idToGroup, stacks, i, q);
      q := q.SetDefault(stack.group);
      for j := 0 to |stack.dependsOn|
        invariant stack.group in q.needs && Projected(idToGroup, stacks, i, j, q)
      {
        var dep := stack.dependsOn[j];
        ghost var before := q;
        if dep in idToGroup && idToGroup[dep] != stack.group {
          q := q.Add(stack.group, idToGroup[dep]);
        }
        DependencyProjected(idToGroup, stacks, i, j, before, q);
      }
    } else {
      UngroupedProjected(idToGroup, stacks, i, q);
    }
    NextProjected(idToGroup, stacks, i, q);
  }

  lemma UngroupedProjected(m: map<Node, string>, stacks: seq<StackDef>, i: nat, p: Projection)
    requires i < |stacks| && stacks[i].group == "" && Projected(m, stacks, i, 0, p)
    ensures Projected(m, stacks, i, |stacks[i].dependsOn|, p)
  {
    assert forall a, b | a in p.needs :: !Feeds(m, stacks[i], |stacks[i].dependsOn|, a, b);
  }

  lemma FedIsNeeded(stacks: seq<StackDef>, a: string, b: string)
    requires DistinctIds(stacks) && FedBefore(IdToGroup(stacks), stacks, |stacks|, a, b)
    ensures b in GroupNeeds(stacks, a)
  {
    var m := IdToGroup(stacks);
    var k :| 0 <= k < |stacks| && Feeds(m, stacks[k], |stacks[k].dependsOn|, a, b);
    var s := stacks[k];
    var d :| d in s.dependsOn[..|s.dependsOn|] && d in m && m[d] == b;
    IdToGroupMeaning(stacks, d, b);
    var t :| t in stacks && t.id == d && t.group == b;
    assert s in stacks;
    EdgeOf(stacks, s, t);
  }

  lemma EdgeOf(stacks: seq<StackDef>, s: StackDef, t: StackDef)
    requires s in stacks && t in stacks && t.id in s.dependsOn && t.group != "" && s.group != t.group
    ensures t.group in GroupNeeds(stacks, s.group)
  {
    assert GroupEdge(stacks, s.group, t.group);
  }

  lemma NeededIsFed(stacks: seq<StackDef>, a: string, b: string)
    requires DistinctIds(stacks) && b in GroupNeeds(stacks, a)
    ensures FedBefore(IdToGroup(stacks), stacks, |stacks|, a, b)
  {
    var s, t :| s in stacks && t in stacks && s.group == a && t.group == b && t.id in s.dependsOn;
    IdToGroupMeaning(stacks, t.id, b);
    var k :| 0 <= k < |stacks| && stacks[k] == s;
    assert s.dependsOn[..|s.dependsOn|] == s.dependsOn;
    assert Feeds(IdToGroup(stacks), stacks[k], |stacks[k].dependsOn|, a, b);
  }

  method ProjectGroups(stacks: seq<StackDef>) returns (p: Projection)
    requires DistinctIds(stacks)
    ensures p.Valid() && p.needs.Keys == Groups(stacks)
    ensures forall a | a in p.needs :: p.needs[a] == GroupNeeds(stacks, a)
  {
    var idToGroup := IdToGroup(stacks);
    p := Projection([], map[]);
    for i := 0 to |stacks|
      invariant Projected(idToGroup, stacks, i, 0, p)
    {
      p := ProjectStack(stacks, i, idToGroup, p);
    }
    forall a, b | a in p.needs ensures b in p.needs[a] <==> b in GroupNeeds(stacks, a) {
      if b in p.needs[a] {
        FedIsNeeded(stacks, a, b);
      }
      if b in GroupNeeds(stacks, a) {
        NeededIsFed(stacks, a, b);
      }
    }
  }

  // ---- _ordered_groups ----

  function AllStacks(stages: seq<Stage>): (r: seq<StackDef>)
    ensures forall s :: s in r <==> exists d :: 0 <= d < |stages| && s in stages[d].stacks
  {
    if stages == [] then []
    else
      var front, last := stages[..|stages| - 1], stages[|stages| - 1];
      assert forall d | 0 <= d < |front| :: stages[d] == front[d];
      AllStacks(front) + last.stacks
  }

  /** The groups of the stacks, each at its first appearance. */
  function FirstAppearances(stacks: seq<StackDef>): (r: seq<string>)
    ensures Distinct(r)
    ensures forall g :: g in r <==> g != "" && exists s :: s in stacks && s.group == g
  {
    if stacks == [] then []
    else
      var front, last := stacks[..|stacks| - 1], stacks[|stacks| - 1];
      assert stacks == front + [last];
      assert forall s :: s in stacks <==> s in front || s == last;
      var r := FirstAppearances(front);
      if last.group == "" || last.group in r then r else r + [last.group]
  }

  lemma NextAppearance(before: seq<StackDef>, s: StackDef)
    ensures FirstAppearances(before + [s]) ==
            var r := FirstAppearances(before); if s.group == "" || s.group in r then r else r + [s.group]
  {
    assert (before + [s])[..|before|] == before;
  }

  lemma TakeNext<T>(before: seq<T>, s: seq<T>, j: nat)
    requires j < |s|
    ensures before + s[..j] + [s[j]] == before + s[..j + 1]
  {
  }

  method ShowStacks(stacks: seq<StackDef>, ghost before: seq<StackDef>, seen: set<string>, ordered: seq<string>)
    returns (seen': set<string>, ordered': seq<string>)
    requires ordered == FirstAppearances(before) && forall g :: g in seen <==> g in ordered
    ensures ordered' == FirstAppearances(before + stacks) && forall g :: g in seen' <==> g in ordered'
  {
    seen', ordered' := seen, ordered;
    ghost var shown := before;
    assert before + stacks[..0] == before;
    for j := 0 to |stacks|
      invariant shown == before + stacks[..j]
      invariant ordered' == FirstAppearances(shown)
      invariant forall g :: g in seen' <==> g in ordered'
    {
      var stack := stacks[j];
      NextAppearance(shown, stack);
      if stack.group != "" && stack.group !in seen' {
        seen' := seen' + {stack.group};
        ordered' := ordered' + [stack.group];
      }
      shown := shown + [stack];
      TakeNext(before, stacks, j);
    }
    assert stacks[..|stacks|] == stacks;
  }

  // ---- What the order of the groups is ----

  /** The stack at a place of the plan is of this group. */
  ghost predicate ShownAt(stages: seq<Stage>, g: string, d: nat, i: nat) {
    d < |stages| && i < |stages[d].stacks| && stages[d].stacks[i].group == g
  }

  /** Place `(d, i)` comes before place `(e, j)`: an earlier stage, or earlier in the same one. */
  predicate PlaceBefore(d: nat, i: nat, e: nat, j: nat) {
    d < e || (d == e && i < j)
  }

  ghost predicate FirstShownAt(stages: seq<Stage>, g: string, d: nat, i: nat) {
    ShownAt(stages, g, d, i) && forall e: nat, j: nat | ShownAt(stages, g, e, j) :: !PlaceBefore(e, j, d, i)
  }

  /** One group stands before the other. */
  ghost predicate StandsBefore(q: seq<string>, g: string, h: string) {
    exists a, b :: 0 <= a < b < |q| && q[a] == g && q[b] == h
  }

  ghost predicate FirstIn(stacks: seq<StackDef>, k: nat) {
    k < |stacks| && stacks[k].group != "" && forall l | 0 <= l < k :: stacks[l].group != stacks[k].group
  }

  /** In a flat list the groups are listed in the order of their first stacks. */
  lemma {:induction false} AppearanceOrder(stacks: seq<StackDef>, k: nat, l: nat)
    requires k < l && FirstIn(stacks, k) && FirstIn(stacks, l)
    ensures StandsBefore(FirstAppearances(stacks), stacks[k].group, stacks[l].group)
    decreases |stacks|
  {
    var front, last := stacks[..|stacks| - 1], stacks[|stacks| - 1];
    var r := FirstAppearances(front);
    if l < |front| {
      AppearanceOrder(front, k, l);
      var a, b :| 0 <= a < b < |r| && r[a] == stacks[k].group && r[b] == stacks[l].group;
      assert FirstAppearances(stacks)[a] == r[a] && FirstAppearances(stacks)[b] == r[b];
    } else {
      assert front[k] in front && front[k].group == stacks[k].group;
      assert stacks[k].group in r;
      var a :| 0 <= a < |r| && r[a] == stacks[k].group;
      assert FirstAppearances(stacks) == r + [last.group];
      assert FirstAppearances(stacks)[a] == stacks[k].group && FirstAppearances(stacks)[|r|] == last.group;
    }
  }

  function FlatIndex(stages: seq<Stage>, d: nat, i: nat): nat
    requires d <= |stages|
  {
    |AllStacks(stages[..d])| + i
  }

  lemma {:induction false} FlatPlace(stages: seq<Stage>, d: nat, i: nat)
    requires d < |stages| && i < |stages[d].stacks|
    ensures FlatIndex(stages, d, i) < |AllStacks(stages)|
    ensures AllStacks(stages)[FlatIndex(stages, d, i)] == stages[d].stacks[i]
    decreases |stages|
  {
    var front := stages[..|stages| - 1];
    if d < |front| {
      FlatPlace(front, d, i);
      assert front[..d] == stages[..d];
    }
  }

  lemma FlatNext(stages: seq<Stage>, d: nat)
    requires d < |stages|
    ensures |AllStacks(stages[..d + 1])| == |AllStacks(stages[..d])| + |stages[d].stacks|
  {
    assert stages[..d + 1][..d] == stages[..d];
  }

  lemma {:induction false} FlatLater(stages: seq<Stage>, d: nat, e: nat)
    requires d <= e <= |stages|
    ensures |AllStacks(stages[..d])| <= |AllStacks(stages[..e])|
    decreases e
  {
    if d < e {
      FlatLater(stages, d, e - 1);
      FlatNext(stages, e - 1);
    }
  }

  /** Flattening keeps the order of places. */
  lemma FlatOrder(stages: seq<Stage>, d: nat, i: nat, e: nat, j: nat)
    requires d < |stages| && i < |stages[d].stacks| && e < |stages| && j < |stages[e].stacks|
    ensures FlatIndex(stages, d, i) < FlatIndex(stages, e, j) <==> PlaceBefore(d, i, e, j)
  {
    FlatNext(stages, d);
    FlatNext(stages, e);
    if d < e {
      FlatLater(stages, d + 1, e);
    } else if e < d {
      FlatLater(stages, e + 1, d);
    }
  }

  lemma {:induction false} PlaceOfFlat(stages: seq<Stage>, k: nat) returns (d: nat, i: nat)
    requires k < |AllStacks(stages)|
    ensures d < |stages| && i < |stages[d].stacks| && FlatIndex(stages, d, i) == k
    decreases |stages|
  {
    var n := |stages| - 1;
    if k < |AllStacks(stages[..n])| {
      d, i := PlaceOfFlat(stages[..n], k);
      assert stages[..n][..d] == stages[..d];
    } else {
      d, i := n, k - |AllStacks(stages[..n])|;
    }
  }

  lemma FirstShownIsFirst(stages: seq<Stage>, g: string, d: nat, i: nat)
    requires g != "" && FirstShownAt(stages, g, d, i)
    ensures FirstIn(AllStacks(stages), FlatIndex(stages, d, i))
    ensures AllStacks(stages)[FlatIndex(stages, d, i)].group == g
  {
    FlatPlace(stages, d, i);
    var flat, k := AllStacks(stages), FlatIndex(stages, d, i);
    forall l | 0 <= l < k ensures flat[l].group != g {
      var e, j := PlaceOfFlat(stages, l);
      FlatPlace(stages, e, j);
      FlatOrder(stages, e, j, d, i);
      assert !ShownAt(stages, g, e, j);
    }
  }

  /** Every group the stages show, once, in the order in which they first show it. */
  ghost predicate InPlanOrder(stages: seq<Stage>, ordered: seq<string>) {
    && Distinct(ordered)
    && (forall g :: g in ordered <==> g != "" && exists d: nat, i: nat :: ShownAt(stages, g, d, i))
    && (forall g, h, d: nat, i: nat, e: nat, j: nat |
          FirstShownAt(stages, g, d, i) && FirstShownAt(stages, h, e, j) && g != "" && h != "" ::
          StandsBefore(ordered, g, h) <==> PlaceBefore(d, i, e, j))
  }

  lemma NotBoth(q: seq<string>, g: string, h: string)
    requires Distinct(q) && StandsBefore(q, g, h)
    ensures !StandsBefore(q, h, g) && g != h
  {
  }

  lemma GroupsInPlanOrder(stages: seq<Stage>)
    ensures InPlanOrder(stages, FirstAppearances(AllStacks(stages)))
  {
    var ordered := FirstAppearances(AllStacks(stages));
    forall g ensures g in ordered <==> g != "" && exists d: nat, i: nat :: ShownAt(stages, g, d, i) {
      ShownSomewhere(stages, g);
    }
    forall g, h, d: nat, i: nat, e: nat, j: nat |
      FirstShownAt(stages, g, d, i) && FirstShownAt(stages, h, e, j) && g != "" && h != ""
      ensures StandsBefore(ordered, g, h) <==> PlaceBefore(d, i, e, j)
    {
      PlanOrderOf(stages, g, h, d, i, e, j);
    }
  }

  lemma ShownSomewhere(stages: seq<Stage>, g: string)
    ensures (exists s :: s in AllStacks(stages) && s.group == g) <==> exists d: nat, i: nat :: ShownAt(stages, g, d, i)
  {
    if s :| s in AllStacks(stages) && s.group == g {
      var d :| 0 <= d < |stages| && s in stages[d].stacks;
      var i :| 0 <= i < |stages[d].stacks| && stages[d].stacks[i] == s;
      assert ShownAt(stages, g, d, i);
    }
    if d: nat, i: nat :| ShownAt(stages, g, d, i) {
      assert stages[d].stacks[i] in AllStacks(stages);
    }
  }

  lemma PlanOrderOf(stages: seq<Stage>, g: string, h: string, d: nat, i: nat, e: nat, j: nat)
    requires FirstShownAt(stages, g, d, i) && FirstShownAt(stages, h, e, j) && g != "" && h != ""
    ensures StandsBefore(FirstAppearances(AllStacks(stages)), g, h) <==> PlaceBefore(d, i, e, j)
  {
    var ordered := FirstAppearances(AllStacks(stages));
    var k, l := FlatIndex(stages, d, i), FlatIndex(stages, e, j);
    FirstShownIsFirst(stages, g, d, i);
    FirstShownIsFirst(stages, h, e, j);
    FlatOrder(stages, d, i, e, j);
    FlatOrder(stages, e, j, d, i);
    if k < l {
      AppearanceOrder(AllStacks(stages), k, l);
    } else if l < k {
      AppearanceOrder(AllStacks(stages), l, k);
      NotBoth(ordered, h, g);
    } else if StandsBefore(ordered, g, h) {
      NotBoth(ordered, g, h);
    }
  }

  method OrderedGroups(stages: seq<Stage>) returns (ordered: seq<string>)
    ensures InPlanOrder(stages, ordered)
    ensures ordered == FirstAppearances(AllStacks(stages))
  {
    GroupsInPlanOrder(stages);
    var seen: set<string> := {};
    ordered := [];
    for i := 0 to |stages|
      invariant ordered == FirstAppearances(AllStacks(stages[..i]))
      invariant forall g :: g in seen <==> g in ordered
    {
      assert stages[..i + 1][..i] == stages[..i];
      seen, ordered := ShowStacks(stages[i].stacks, AllStacks(stages[..i]), seen, ordered);
    }
    assert stages[..|stages|] == stages;
  }

  // ---- group_waves ----

  /** `order.get(g, 0)` for the positions in `ordered`. */
  function Position(ordered: seq<string>, g: string): (i: nat)
    ensures g in ordered ==> i < |ordered| && ordered[i] == g
  {
    if ordered == [] then 0
    else if ordered[|ordered| - 1] == g then |ordered| - 1
    else Position(ordered[..|ordered| - 1], g)
  }

  function ByPosition(ordered: seq<string>): (string, string) -> bool {
    (a, b) => Position(ordered, a) <= Position(ordered, b)
  }

  lemma PositionsOrder(ordered: seq<string>, s: set<string>)
    requires forall g | g in s :: g in ordered
    ensures TotalOn(s, ByPosition(ordered))
  {
  }

  /** Wave `d` lists the groups of depth `d` in the order in which the flat plan first shows them. */
  ghost predicate AreWaves(stacks: seq<StackDef>, plan: seq<Stage>, waves: seq<seq<string>>) {
    && (forall d | 0 <= d < |waves| ::
          IsListing(waves[d], IdsAtDepth(GroupGraph(stacks), d), ByPosition(FirstAppearances(AllStacks(plan)))))
    && (forall g | g in Groups(stacks) :: Depth(GroupGraph(stacks), g) < |waves|)
    && (forall d | 0 <= d < |waves| :: waves[d] == [] <==> Groups(stacks) == {})
    && |waves| > 0
  }

  /** Inside a wave the groups stand in the order in which the plan first shows them. */
  lemma WaveFollowsPlan(stacks: seq<StackDef>, plan: seq<Stage>, waves: seq<seq<string>>, w: nat, a: nat, b: nat,
                        d: nat, i: nat, e: nat, j: nat)
    requires Plannable(stacks) && IsPlan(stacks, plan) && AreWaves(stacks, plan, waves)
    requires w < |waves| && a < b < |waves[w]|
    requires FirstShownAt(plan, waves[w][a], d, i) && FirstShownAt(plan, waves[w][b], e, j)
    ensures PlaceBefore(d, i, e, j)
  {
    var g, h := waves[w][a], waves[w][b];
    InWaveOrder(stacks, plan, waves, w, a, b);
    PlanOrderOf(plan, g, h, d, i, e, j);
  }

  lemma InWaveOrder(stacks: seq<StackDef>, plan: seq<Stage>, waves: seq<seq<string>>, w: nat, a: nat, b: nat)
    requires Plannable(stacks) && IsPlan(stacks, plan) && AreWaves(stacks, plan, waves)
    requires w < |waves| && a < b < |waves[w]|
    ensures waves[w][a] != "" && waves[w][b] != ""
    ensures StandsBefore(FirstAppearances(AllStacks(plan)), waves[w][a], waves[w][b])
  {
    PlanShowsGroups(stacks, plan);
    var ordered, q, s := FirstAppearances(AllStacks(plan)), waves[w], IdsAtDepth(GroupGraph(stacks), w);
    assert IsListing(q, s, ByPosition(ordered));
    assert q[a] in q && q[b] in q;
    assert q[a] in ordered && q[b] in ordered;
    PositionStands(q, s, ordered, a, b);
  }

  lemma PositionStands(q: seq<string>, s: set<string>, ordered: seq<string>, a: nat, b: nat)
    requires IsListing(q, s, ByPosition(ordered)) && a < b < |q| && q[a] in ordered && q[b] in ordered
    ensures StandsBefore(ordered, q[a], q[b])
  {
    assert ByPosition(ordered)(q[a], q[b]) && q[a] != q[b];
  }

  lemma PlanShowsGroups(stacks: seq<StackDef>, plan: seq<Stage>)
    requires Plannable(stacks) && IsPlan(stacks, plan)
    ensures forall g :: g in FirstAppearances(AllStacks(plan)) <==> g in Groups(stacks)
  {
    PlanIsSafe(stacks, plan);
    forall s ensures s in AllStacks(plan) <==> s in stacks {
      if s in stacks {
        var d :| 0 <= d < |plan| && s in plan[d].stacks;
      }
    }
  }

  lemma WaveInhabited(g: Prereqs, depth: map<Node, nat>, maxDepth: nat, d: nat)
    requires Closed(g) && depth.Keys == g.Keys && forall n | n in depth :: depth[n] == Depth(g, n)
    requires if g == map[] then maxDepth == 0 else exists n :: n in depth && depth[n] == maxDepth
    requires d <= maxDepth
    ensures (set a | a in depth && depth[a] == d) == IdsAtDepth(g, d)
    ensures IdsAtDepth(g, d) == {} <==> g.Keys == {}
  {
    if g != map[] {
      var deepest :| deepest in depth && depth[deepest] == maxDepth;
      var m := DepthsHaveNoGaps(g, deepest, d);
      assert m in IdsAtDepth(g, d);
    }
  }

  function SortWave(ordered: seq<string>, members: set<string>): (wave: seq<string>)
    requires forall g | g in members :: g in ordered
    ensures IsListing(wave, members, ByPosition(ordered))
    ensures wave == [] <==> members == {}
  {
    PositionsOrder(ordered, members);
    var wave := Sorted(members, ByPosition(ordered));
    EmptyListing(wave, members, ByPosition(ordered));
    wave
  }

  lemma NoGroups(groups: seq<string>, g: Prereqs)
    requires forall a :: a in groups <==> a in g
    ensures |groups| == 0 <==> g == map[]
  {
    assert |groups| > 0 ==> groups[0] in groups;
  }

  ghost predicate IsWave(g: Prereqs, ordered: seq<string>, d: nat, wave: seq<string>) {
    IsListing(wave, IdsAtDepth(g, d), ByPosition(ordered)) && (wave == [] <==> g.Keys == {})
  }

  method CutWaves(ghost g: Prereqs, ordered: seq<string>, groups: seq<string>, depth: map<string, nat>)
    returns (waves: seq<seq<string>>)
    requires Closed(g) && forall a | a in g :: a in ordered
    requires forall a :: a in groups <==> a in depth
    requires depth.Keys == g.Keys && forall n | n in depth :: depth[n] == Depth(g, n)
    ensures forall d | 0 <= d < |waves| :: IsListing(waves[d], IdsAtDepth(g, d), ByPosition(ordered))
    ensures forall d | 0 <= d < |waves| :: waves[d] == [] <==> g.Keys == {}
    ensures |waves| > 0 && forall n | n in g :: Depth(g, n) < |waves|
  {
    NoGroups(groups, g);
    var maxDepth := MaxDepth(groups, depth);
    waves := [];
    for d := 0 to maxDepth + 1
      invariant |waves| == d
      invariant forall e | 0 <= e < d :: IsWave(g, ordered, e, waves[e])
    {
      var wave := CutWave(g, ordered, depth, maxDepth, d);
      waves := waves + [wave];
    }
  }

  /** The wave of one depth. */
  method CutWave(ghost g: Prereqs, ordered: seq<string>, depth: map<string, nat>, ghost maxDepth: nat, d: nat)
    returns (wave: seq<string>)
    requires Closed(g) && (forall a | a in g :: a in ordered) && d <= maxDepth
    requires depth.Keys == g.Keys && forall n | n in depth :: depth[n] == Depth(g, n)
    requires if g == map[] then maxDepth == 0 else exists n :: n in depth && depth[n] == maxDepth
    ensures IsWave(g, ordered, d, wave)
  {
    var members := set a | a in depth && depth[a] == d;
    WaveInhabited(g, depth, maxDepth, d);
    wave := SortWave(ordered, members);
  }

  /** From exact depths to waves, in the order of the flat plan. */
  method WavesFromDepths(stacks: seq<StackDef>, order: seq<string>, depth: map<string, nat>)
    returns (r: Result<seq<seq<string>>, StackfileError>)
    requires depth == DepthMap(GroupGraph(stacks)) && depth.Keys == Groups(stacks)
    requires forall a :: a in order <==> a in depth
    ensures r.Success? <==> Plannable(stacks)
    ensures r.Success? ==> exists plan :: IsPlan(stacks, plan) && AreWaves(stacks, plan, r.value)
    ensures r.Failure? ==> r.error.InvalidReferences? || r.error.CyclicStacks?
  {
    var plan :- DeploymentPlan(stacks);
    PlanShowsGroups(stacks, plan);
    var ordered := OrderedGroups(plan);
    var waves := CutWaves(GroupGraph(stacks), ordered, order, depth);
    assert AreWaves(stacks, plan, waves);
    return Success(waves);
  }

  /** Comparing sizes tells whether some group was left without a depth. */
  lemma DepthlessAreStranded(stacks: seq<StackDef>, depth: map<string, nat>)
    requires depth == DepthMap(GroupGraph(stacks))
    ensures |depth| == |Groups(stacks)| <==> Stranded(stacks) == {}
    ensures Groups(stacks) - depth.Keys == Stranded(stacks)
    ensures Stranded(stacks) == {} ==> depth.Keys == Groups(stacks)
  {
    var g := GroupGraph(stacks);
    DepthMapKeys(g);
    NothingLeftOver(depth.Keys, g.Keys);
    assert |depth| == |depth.Keys|;
  }

  lemma DepthMapKeys(g: Prereqs)
    ensures DepthMap(g).Keys == DepthedNodes(g) <= g.Keys
  {
  }

  lemma NothingLeftOver(part: set<string>, whole: set<string>)
    requires part <= whole
    ensures |part| == |whole| <==> whole - part == {}
    ensures whole - part == {} <==> part == whole
  {
    SubsetSameSize(part, whole);
    assert whole == part + (whole - part);
  }

  /** Succeeds exactly when the stacks can be planned and no group is stranded. */
  method GroupWaves(stacks: seq<StackDef>) returns (r: Result<seq<seq<string>>, StackfileError>)
    ensures r.Success? <==> Plannable(stacks) && Stranded(stacks) == {}
    ensures r.Success? ==> exists plan :: IsPlan(stacks, plan) && AreWaves(stacks, plan, r.value)
    ensures r.Failure? && Plannable(stacks) ==> r.error == CyclicGroups(SortedIds(Stranded(stacks)))
    ensures r.Failure? && !Plannable(stacks) ==> r.error.InvalidReferences? || r.error.CyclicStacks?
  {
    var _ :- ValidateReferences(stacks);
    var _ :- DetectCycles(stacks);
    var p := ProjectGroups(stacks);
    var prerequisites := map a | a in p.needs :: SortedIds(p.needs[a]);
    assert prerequisites == GroupGraph(stacks);
    var depth, dequeued := LongestPathDepths(p.order, prerequisites);
    DepthlessAreStranded(stacks, depth);
    assert |p.needs| == |p.needs.Keys|;
    if |depth| != |p.needs| {
      var stranded := SortedIds(p.needs.Keys - depth.Keys);
      return Failure(CyclicGroups(stranded));
    }
    r := WavesFromDepths(stacks, p.order, depth);
  }

  // ---- Main results about waves ----

  /** The waves hold the groups of the flat plan, each once. */
  lemma WavesCoverFlatPlan(stacks: seq<StackDef>, plan: seq<Stage>, waves: seq<seq<string>>)
    requires Plannable(stacks) && IsPlan(stacks, plan) && AreWaves(stacks, plan, waves)
    ensures forall g :: g in FirstAppearances(AllStacks(plan)) <==> exists d :: 0 <= d < |waves| && g in waves[d]
    ensures forall d, e, g | 0 <= d < |waves| && 0 <= e < |waves| && g in waves[d] && g in waves[e] :: d == e
    ensures forall d | 0 <= d < |waves| :: Distinct(waves[d])
  {
    PlanShowsGroups(stacks, plan);
    var gg := GroupGraph(stacks);
    forall d, g | 0 <= d < |waves| ensures g in waves[d] <==> g in Groups(stacks) && Depth(gg, g) == d {
      assert g in waves[d] <==> g in IdsAtDepth(gg, d);
    }
    forall g | g in Groups(stacks) ensures exists d :: 0 <= d < |waves| && g in waves[d] {
      assert g in waves[Depth(gg, g)];
    }
  }

  lemma {:induction false} LevelsBoundWalks(g: Prereqs, level: map<string, nat>, w: seq<string>)
    requires IsWalk(g, w) && g.Keys <= level.Keys && forall a, b | a in g && b in g && b in g[a] :: level[b] < level[a]
    ensures |w| <= level[w[0]] + 1
    decreases |w|
  {
    if |w| > 1 {
      WalkStep(g, w, 1);
      LevelsBoundWalks(g, level, w[1..]);
    }
  }

  /** With an acyclic projection every needed group lands in a strictly earlier wave, and no other
      arrangement with that property puts any group earlier. */
  lemma WavesAreValidAndOptimal(stacks: seq<StackDef>, plan: seq<Stage>, waves: seq<seq<string>>)
    requires AreWaves(stacks, plan, waves) && Acyclic(GroupGraph(stacks))
    ensures forall a, b, d, e | 0 <= d < |waves| && 0 <= e < |waves| && a in waves[d] && b in waves[e] &&
              b in GroupNeeds(stacks, a) :: e < d
    ensures forall level: map<string, nat>, a, d | Groups(stacks) <= level.Keys &&
              (forall x, y | x in Groups(stacks) && y in GroupNeeds(stacks, x) :: level[y] < level[x]) &&
              0 <= d < |waves| && a in waves[d] :: d <= level[a]
  {
    var g := GroupGraph(stacks);
    AcyclicIffGrounded(g);
    forall d, a | 0 <= d < |waves| ensures a in waves[d] <==> a in g && Depth(g, a) == d {
      assert a in waves[d] <==> a in IdsAtDepth(g, d);
    }
    forall a, b | a in g && b in GroupNeeds(stacks, a) ensures Depth(g, b) < Depth(g, a) {
      DepthStep(g, a, b);
    }
    forall level: map<string, nat>, a, d | Groups(stacks) <= level.Keys &&
      (forall x, y | x in Groups(stacks) && y in GroupNeeds(stacks, x) :: level[y] < level[x]) &&
      0 <= d < |waves| && a in waves[d]
      ensures d <= level[a]
    {
      var w := DeepestWalk(g, a);
      LevelsBoundWalks(g, level, w);
    }
  }
}
