/** Parsed stacks and the validation of what they refer to. */
module Stackfile {
  import opened Results
  import opened Digraph

  datatype Parameter = Parameter(name: string, value: string, crossStackRef: Option<Node>)

  datatype StackDef = StackDef(
    id: Node,
    name: string,
    group: string,  // "" when no group lists the stack
    dependsOn: seq<Node>,
    parameters: seq<Parameter>)

  datatype ReferenceError =
    | UnknownDependency(stack: Node, dep: Node)
    | UnknownReference(stack: Node, parameter: string, target: Node, value: string)

  datatype StackfileError =
    | InvalidReferences(errors: seq<ReferenceError>)
    | CyclicStacks(nodes: seq<Node>)
    | CyclicGroups(groups: seq<string>)
    | UnknownNames(names: seq<string>)
    | MissingStack(id: Node)  // the KeyError of a lookup by id

  function Ids(stacks: seq<StackDef>): (ids: set<Node>) {
    set s | s in stacks :: s.id
  }

  ghost predicate DistinctIds(stacks: seq<StackDef>) {
    forall i, j | 0 <= i < j < |stacks| :: stacks[i].id != stacks[j].id
  }

  // ---- The dependency graph between known stacks ----

  function KnownOnly(deps: seq<Node>, known: set<Node>): (r: seq<Node>)
    ensures forall d :: d in r <==> d in deps && d in known
    ensures (forall d | d in deps :: d in known) ==> r == deps
  {
    if deps == [] then []
    else
      var rest := KnownOnly(deps[..|deps| - 1], known);
      var last := deps[|deps| - 1];
      assert deps == deps[..|deps| - 1] + [last];
      if last in known then rest + [last] else rest
  }

  /** All known dependencies declared under one id; ids shared by several entries share them. */
  function DepsOf(stacks: seq<StackDef>, known: set<Node>, id: Node): (r: seq<Node>) {
    if stacks == [] then []
    else
      var last := stacks[|stacks| - 1];
      DepsOf(stacks[..|stacks| - 1], known, id) + (if last.id == id then KnownOnly(last.dependsOn, known) else [])
  }

  function StackGraph(stacks: seq<StackDef>): (g: Prereqs) {
    map id | id in Ids(stacks) :: DepsOf(stacks, Ids(stacks), id)
  }

  lemma {:induction false} DepsOfMeaning(stacks: seq<StackDef>, known: set<Node>, id: Node)
    ensures forall d :: d in DepsOf(stacks, known, id) <==>
              d in known && exists s :: s in stacks && s.id == id && d in s.dependsOn
    decreases |stacks|
  {
    if stacks != [] {
      var front, last := stacks[..|stacks| - 1], stacks[|stacks| - 1];
      assert stacks == front + [last];
      DepsOfMeaning(front, known, id);
      forall d ensures (exists s :: s in stacks && s.id == id && d in s.dependsOn) <==>
                       (exists s :: s in front && s.id == id && d in s.dependsOn) ||
                       (last.id == id && d in last.dependsOn)
      {
        if last.id == id && d in last.dependsOn {
          assert last in stacks;
        }
      }
    }
  }

  lemma GraphClosed(stacks: seq<StackDef>)
    ensures Closed(StackGraph(stacks))
  {
    forall n | n in Ids(stacks) ensures forall d | d in DepsOf(stacks, Ids(stacks), n) :: d in Ids(stacks) {
      DepsOfMeaning(stacks, Ids(stacks), n);
    }
  }

  lemma StackGraphMeaning(stacks: seq<StackDef>)
    ensures forall n, d :: n in StackGraph(stacks) && d in StackGraph(stacks)[n] <==>
              d in Ids(stacks) && exists s :: s in stacks && s.id == n && d in s.dependsOn
  {
    forall n ensures forall d :: n in StackGraph(stacks) && d in StackGraph(stacks)[n] <==>
                       d in Ids(stacks) && exists s :: s in stacks && s.id == n && d in s.dependsOn
    {
      DepsOfMeaning(stacks, Ids(stacks), n);
    }
  }

  lemma {:induction false} DepsOfNone(stacks: seq<StackDef>, known: set<Node>, id: Node)
    requires forall s | s in stacks :: s.id != id
    ensures DepsOf(stacks, known, id) == []
    decreases |stacks|
  {
    if stacks != [] {
      DepsOfNone(stacks[..|stacks| - 1], known, id);
    }
  }

  /** With distinct ids and only known dependencies, the graph is the map id -> depends_on. */
  lemma {:induction false} DepsOfDistinct(stacks: seq<StackDef>, known: set<Node>, i: nat)
    requires DistinctIds(stacks) && i < |stacks|
    ensures DepsOf(stacks, known, stacks[i].id) == KnownOnly(stacks[i].dependsOn, known)
    decreases |stacks|
  {
    var front := stacks[..|stacks| - 1];
    if i == |stacks| - 1 {
      DepsOfNone(front, known, stacks[i].id);
    } else {
      DepsOfDistinct(front, known, i);
    }
  }

  // ---- validate_references ----

  predicate BrokenIn(stack: StackDef, known: set<Node>, e: ReferenceError) {
    match e
    case UnknownDependency(s, d) => s == stack.id && d in stack.dependsOn && d !in known
    case UnknownReference(s, p, t, v) =>
      s == stack.id && t !in known && Parameter(p, v, Some(t)) in stack.parameters
  }

  /** Every dependency and every cross-stack parameter reference names a stack of the file. */
  ghost predicate ValidReferences(stacks: seq<StackDef>) {
    forall s | s in stacks ::
      && (forall d | d in s.dependsOn :: d in Ids(stacks))
      && (forall p | p in s.parameters && p.crossStackRef.Some? :: p.crossStackRef.value in Ids(stacks))
  }

  method CheckStack(stack: StackDef, known: set<Node>) returns (errors: seq<ReferenceError>)
    ensures forall e :: e in errors <==> BrokenIn(stack, known, e)
  {
    errors := [];
    for i := 0 to |stack.dependsOn|
      invariant forall e :: e in errors <==>
                  e.UnknownDependency? && e.stack == stack.id && e.dep in stack.dependsOn[..i] && e.dep !in known
    {
      if stack.dependsOn[i] !in known {
        errors := errors + [UnknownDependency(stack.id, stack.dependsOn[i])];
      }
    }
    for i := 0 to |stack.parameters|
      invariant forall e :: e in errors <==>
                  if e.UnknownDependency? then BrokenIn(stack, known, e)
                  else e.stack == stack.id && e.target !in known &&
                       Parameter(e.parameter, e.value, Some(e.target)) in stack.parameters[..i]
    {
      var p := stack.parameters[i];
      if p.crossStackRef.Some? && p.crossStackRef.value !in known {
        errors := errors + [UnknownReference(stack.id, p.name, p.crossStackRef.value, p.value)];
      }
    }
  }

  method ValidateReferences(stacks: seq<StackDef>) returns (r: Result<(), StackfileError>)
    ensures r.Success? <==> ValidReferences(stacks)
    ensures r.Failure? ==> r.error.InvalidReferences?
    ensures r.Failure? ==> forall e :: e in r.error.errors <==> exists s :: s in stacks && BrokenIn(s, Ids(stacks), e)
    ensures r.Failure? ==>
              forall n, d :: UnknownDependency(n, d) in r.error.errors <==>
                exists s :: s in stacks && s.id == n && d in s.dependsOn && d !in Ids(stacks)
    ensures r.Failure? ==>
              forall n, p, t, v :: UnknownReference(n, p, t, v) in r.error.errors <==>
                exists s :: s in stacks && s.id == n && Parameter(p, v, Some(t)) in s.parameters && t !in Ids(stacks)
  {
    var known := Ids(stacks);
    var errors: seq<ReferenceError> := [];
    for i := 0 to |stacks|
      invariant forall e :: e in errors <==> exists k :: 0 <= k < i && BrokenIn(stacks[k], known, e)
    {
      var more := CheckStack(stacks[i], known);
      errors := errors + more;
    }
    forall e ensures e in errors <==> exists s :: s in stacks && BrokenIn(s, known, e) {
      if e in errors {
        var k :| 0 <= k < |stacks| && BrokenIn(stacks[k], known, e);
        assert stacks[k] in stacks;
      }
    }
    if errors != [] {
      assert errors[0] in errors;
      return Failure(InvalidReferences(errors));
    }
    forall s | s in stacks
      ensures (forall d | d in s.dependsOn :: d in known)
      ensures forall p | p in s.parameters && p.crossStackRef.Some? :: p.crossStackRef.value in known
    {
      forall d | d in s.dependsOn ensures d in known {
        assert UnknownDependency(s.id, d) !in errors;
      }
      forall p | p in s.parameters && p.crossStackRef.Some? ensures p.crossStackRef.value in known {
        assert UnknownReference(s.id, p.name, p.crossStackRef.value, p.value) !in errors;
      }
    }
    return Success(());
  }
}
