/** Resolving names in synthesized templates, and which log groups may be deleted. */
module TemplateNames {
  import opened Results

  /** A template value: a string, a reference, a join, or anything else. */
  datatype Value = Str(text: string) | Ref(name: string) | Join(sep: string, parts: seq<Value>) | Other(id: nat)

  /** The parameters of a template: the string default of each, if it has one. */
  type Params = map<string, Option<string>>

  const REGION_REF := "AWS::Region"

  /** What a reference is known to be: the region, or a non-empty string default. */
  function KnownRef(ref: string, params: Params, region: string): Option<string> {
    if ref == REGION_REF then Some(region)
    else if ref in params && params[ref].Some? && params[ref].value != "" then params[ref]
    else None
  }

  /** `sep.join(texts)`. */
  function JoinTexts(sep: string, texts: seq<string>): string {
    if texts == [] then ""
    else if |texts| == 1 then texts[0]
    else JoinTexts(sep, texts[..|texts| - 1]) + sep + texts[|texts| - 1]
  }

  // ---- What a value evaluates to at deployment ----

  /** An assignment to references and to values of other kinds. */
  datatype Env = Env(refs: string -> string, others: nat -> string)

  /** The region is the one given, and a parameter with a non-empty string default has that value. */
  ghost predicate Consistent(env: Env, params: Params, region: string) {
    && env.refs("AWS::Region") == region
    && (forall ref | ref != "AWS::Region" && ref in params && params[ref].Some? && params[ref].value != "" ::
          env.refs(ref) == params[ref].value)
  }

  /** What a name that is a single reference resolves to. */
  lemma SingleReference(ref: string, params: Params, region: string)
    ensures ref == "AWS::Region" ==> ResolveRoleName(Ref(ref), params, region) == Some(region)
    ensures ref != "AWS::Region" && ref in params && params[ref].Some? && params[ref].value != "" ==>
              ResolveRoleName(Ref(ref), params, region) == params[ref]
    ensures ref != "AWS::Region" && !(ref in params && params[ref].Some? && params[ref].value != "") ==>
              ResolveRoleName(Ref(ref), params, region) == None
  {
  }

  lemma SingleText(sep: string, text: string)
    ensures JoinTexts(sep, []) == "" && JoinTexts(sep, [text]) == text
  {
  }

  /** Texts are joined with exactly one separator between any two of them. */
  lemma {:induction false} JoinTextsOfBoth(sep: string, a: seq<string>, b: seq<string>)
    requires a != [] && b != []
    ensures JoinTexts(sep, a + b) == JoinTexts(sep, a) + sep + JoinTexts(sep, b)
    decreases |b|
  {
    var front, last := b[..|b| - 1], b[|b| - 1];
    assert (a + b)[..|a + b| - 1] == a + front && (a + b)[|a + b| - 1] == last;
    if front == [] {
      assert b == [last] && a + front == a;
    } else {
      JoinTextsOfBoth(sep, a, front);
    }
  }

  function Eval(v: Value, env: Env): string
    decreases v
  {
    match v
    case Str(s) => s
    case Ref(r) => env.refs(r)
    case Join(sep, parts) => JoinTexts(sep, seq(|parts|, i requires 0 <= i < |parts| => Eval(parts[i], env)))
    case Other(id) => env.others(id)
  }

  function EvalAll(parts: seq<Value>, env: Env): (r: seq<string>)
    ensures |r| == |parts| && forall i | 0 <= i < |r| :: r[i] == Eval(parts[i], env)
  {
    seq(|parts|, i requires 0 <= i < |parts| => Eval(parts[i], env))
  }

  lemma EvalJoin(sep: string, parts: seq<Value>, env: Env)
    ensures Eval(Join(sep, parts), env) == JoinTexts(sep, EvalAll(parts, env))
  {
    assert seq(|parts|, i requires 0 <= i < |parts| => Eval(parts[i], env)) == EvalAll(parts, env);
  }

  // ---- The recursive resolver of the role script ----

  function ResolveRoleName(v: Value, params: Params, region: string): (r: Option<string>)
    decreases v
  {
    match v
    case Str(s) => Some(s)
    case Ref(ref) => KnownRef(ref, params, region)
    case Join(sep, parts) =>
      if forall i | 0 <= i < |parts| :: ResolveRoleName(parts[i], params, region).Some?
      then
        Some(JoinTexts(sep, seq(|parts|, i requires 0 <= i < |parts| =>
          ResolveRoleName(parts[i], params, region).value)))
      else None
    case Other(_) => None
  }

  /** A resolved name is what the value evaluates to under every consistent assignment. */
  lemma {:induction false} RoleNameSound(v: Value, params: Params, region: string, env: Env)
    requires ResolveRoleName(v, params, region).Some? && Consistent(env, params, region)
    ensures Eval(v, env) == ResolveRoleName(v, params, region).value
    decreases v
  {
    if v.Join? {
      forall i | 0 <= i < |v.parts| ensures Eval(v.parts[i], env) == ResolveRoleName(v.parts[i], params, region).value {
        RoleNameSound(v.parts[i], params, region, env);
      }
      assert EvalAll(v.parts, env) ==
             seq(|v.parts|, i requires 0 <= i < |v.parts| => ResolveRoleName(v.parts[i], params, region).value);
      EvalJoin(v.sep, v.parts, env);
    }
  }

  /** Everything unknown is the given filler. */
  function Filled(params: Params, region: string, filler: string): (env: Env)
    ensures Consistent(env, params, region)
  {
    Env(ref => match KnownRef(ref, params, region) case Some(x) => x case None => filler, _ => filler)
  }

  lemma {:induction false} LongerParts(sep: string, a: seq<string>, b: seq<string>)
    requires |a| == |b| && forall i | 0 <= i < |a| :: |a[i]| <= |b[i]|
    ensures |JoinTexts(sep, a)| <= |JoinTexts(sep, b)|
    ensures (exists i :: 0 <= i < |a| && |a[i]| < |b[i]|) ==> |JoinTexts(sep, a)| < |JoinTexts(sep, b)|
    decreases |a|
  {
    if |a| > 1 {
      LongerParts(sep, a[..|a| - 1], b[..|b| - 1]);
      if i :| 0 <= i < |a| && |a[i]| < |b[i]| {
        if i < |a| - 1 {
          assert a[..|a| - 1][i] == a[i] && b[..|b| - 1][i] == b[i];
        }
      }
    }
  }

  lemma {:induction false} FillerShows(v: Value, params: Params, region: string)
    ensures |Eval(v, Filled(params, region, ""))| <= |Eval(v, Filled(params, region, "x"))|
    ensures ResolveRoleName(v, params, region).None? ==>
              |Eval(v, Filled(params, region, ""))| < |Eval(v, Filled(params, region, "x"))|
    decreases v
  {
    if v.Join? {
      var short, long := Filled(params, region, ""), Filled(params, region, "x");
      forall i | 0 <= i < |v.parts|
        ensures |Eval(v.parts[i], short)| <= |Eval(v.parts[i], long)|
        ensures ResolveRoleName(v.parts[i], params, region).None? ==>
                  |Eval(v.parts[i], short)| < |Eval(v.parts[i], long)|
      {
        FillerShows(v.parts[i], params, region);
      }
      EvalJoin(v.sep, v.parts, short);
      EvalJoin(v.sep, v.parts, long);
      LongerParts(v.sep, EvalAll(v.parts, short), EvalAll(v.parts, long));
      if ResolveRoleName(v, params, region).None? {
        var i :| 0 <= i < |v.parts| && ResolveRoleName(v.parts[i], params, region).None?;
        assert |EvalAll(v.parts, short)[i]| < |EvalAll(v.parts, long)[i]|;
      }
    }
  }

  /** The resolver answers exactly when the region and the defaults determine the name. */
  lemma RoleNameCompleteIff(v: Value, params: Params, region: string)
    ensures ResolveRoleName(v, params, region).Some? <==>
              forall e, f | Consistent(e, params, region) && Consistent(f, params, region) :: Eval(v, e) == Eval(v, f)
  {
    if ResolveRoleName(v, params, region).Some? {
      forall e, f | Consistent(e, params, region) && Consistent(f, params, region) ensures Eval(v, e) == Eval(v, f) {
        RoleNameSound(v, params, region, e);
        RoleNameSound(v, params, region, f);
      }
    } else {
      FillerShows(v, params, region);
      assert Eval(v, Filled(params, region, "")) != Eval(v, Filled(params, region, "x"));
    }
  }

  // ---- The resolver of the log-group script ----

  /** An exact name, a literal prefix of an unresolved one, or neither. */
  datatype GroupName = Exact(name: string) | Prefix(prefix: string) | Unresolved

  function PartText(part: Value, params: Params, region: string): Option<string> {
    match part
    case Str(s) => Some(s)
    case Ref(ref) => KnownRef(ref, params, region)
    case _ => None
  }

  /** A string, or one join of strings and references. */
  predicate Flat(v: Value) {
    v.Str? || (v.Join? && forall i | 0 <= i < |v.parts| :: v.parts[i].Str? || v.parts[i].Ref?)
  }

  ghost predicate PartsResolve(parts: seq<Value>, params: Params, region: string, texts: seq<string>) {
    |texts| == |parts| && forall i | 0 <= i < |parts| :: PartText(parts[i], params, region) == Some(texts[i])
  }

  lemma {:induction false} JoinPrefix(sep: string, texts: seq<string>, n: nat)
    requires 0 < n < |texts|
    ensures JoinTexts(sep, texts[..n]) + sep <= JoinTexts(sep, texts)
    decreases |texts|
  {
    var front := texts[..|texts| - 1];
    assert JoinTexts(sep, texts) == JoinTexts(sep, front) + sep + texts[|texts| - 1];
    if n < |front| {
      JoinPrefix(sep, front, n);
      assert front[..n] == texts[..n];
    } else {
      assert front == texts[..n];
    }
  }

  /** Texts that agree with the evaluated parts as far as they go give a prefix of the evaluated join. */
  lemma HeadIsPrefix(v: Value, head: seq<string>, env: Env)
    requires v.Join? && 0 < |head| < |v.parts| && forall i | 0 <= i < |head| :: v.parts[i] == Str(head[i])
    ensures JoinTexts(v.sep, head) + v.sep <= Eval(v, env)
  {
    EvalJoin(v.sep, v.parts, env);
    var texts := EvalAll(v.parts, env);
    assert texts[..|head|] == head;
    JoinPrefix(v.sep, texts, |head|);
  }

  /** The strings a join starts with, up to its first part of another kind. */
  function LiteralHead(parts: seq<Value>): (head: seq<string>)
    ensures |head| <= |parts| && forall j | 0 <= j < |head| :: parts[j] == Str(head[j])
    ensures |head| < |parts| ==> !parts[|head|].Str?
  {
    if parts == [] || !parts[0].Str? then [] else [parts[0].text] + LiteralHead(parts[1..])
  }

  lemma {:induction false} LiteralHeadIs(parts: seq<Value>, head: seq<string>)
    requires |head| < |parts| && !parts[|head|].Str? && forall j | 0 <= j < |head| :: parts[j] == Str(head[j])
    ensures head == LiteralHead(parts)
    decreases |head|
  {
    if head != [] {
      LiteralHeadIs(parts[1..], head[1..]);
    }
  }

  /** The literal head of a join, up to and including the separator after it. */
  function HeadText(v: Value): string
    requires v.Join?
  {
    JoinTexts(v.sep, LiteralHead(v.parts)) + v.sep
  }

  /** The name is known without guessing, from a string or one flat join. */
  predicate IsExact(v: Value, params: Params, region: string, name: string) {
    Flat(v) && ResolveRoleName(v, params, region) == Some(name)
  }

  /** Only a literal prefix of the name is known. */
  predicate IsOpen(v: Value, params: Params, region: string) {
    v.Join? && LiteralHead(v.parts) != [] && !(Flat(v) && ResolveRoleName(v, params, region).Some?)
  }

  /** The prefix is empty exactly when nothing but empty strings comes before the first unknown part; every
      log group starts with it then. */
  lemma {:induction false} HeadTextEmptyIff(sep: string, texts: seq<string>)
    ensures JoinTexts(sep, texts) + sep == "" <==> sep == "" && forall s | s in texts :: s == ""
    decreases |texts|
  {
    if |texts| == 1 {
      assert texts[0] in texts && texts == [texts[0]];
    } else if |texts| > 1 {
      var front, last := texts[..|texts| - 1], texts[|texts| - 1];
      HeadTextEmptyIff(sep, front);
      assert texts == front + [last];
      assert JoinTexts(sep, texts) + sep == "" <==> JoinTexts(sep, front) + sep == "" && last == "";
      assert last in texts && forall s | s in front :: s in texts;
      assert forall s | s in texts :: s in front || s == last;
    }
  }

  /** Walks over the parts; stops at the first that is not known. */
  method ResolveGroupName(v: Value, params: Params, region: string) returns (r: GroupName)
    ensures r.Exact? <==> Flat(v) && ResolveRoleName(v, params, region).Some?
    ensures r.Exact? ==> IsExact(v, params, region, r.name)
    ensures r.Exact? <==>
              v.Str? || (v.Join? && forall i | 0 <= i < |v.parts| ::
                           v.parts[i].Str? || (v.parts[i].Ref? && ResolveRoleName(v.parts[i], params, region).Some?))
    ensures r.Prefix? <==> IsOpen(v, params, region)
    ensures r.Prefix? <==> !r.Exact? && v.Join? && v.parts != [] && v.parts[0].Str?
    ensures r.Prefix? ==> r.prefix == JoinTexts(v.sep, LiteralHead(v.parts)) + v.sep
    ensures r.Prefix? ==> forall env :: r.prefix <= Eval(v, env)
  {
    if v.Str? {
      return Exact(v.text);
    }
    if !v.Join? {
      return Unresolved;
    }
    var resolved, head, stillLiteral := [], [], true;
    for i := 0 to |v.parts|
      invariant PartsResolve(v.parts[..i], params, region, resolved)
      invariant |head| <= i && forall j | 0 <= j < |head| :: v.parts[j] == Str(head[j])
      invariant if stillLiteral then |head| == i else |head| < i && !v.parts[|head|].Str?
    {
      var part := v.parts[i];
      var lit := PartText(part, params, region);
      if lit.None? {
        LiteralHeadIs(v.parts, head);
        NotExact(v, params, region, i);
        if head == [] {
          return Unresolved;
        }
        forall env ensures JoinTexts(v.sep, head) + v.sep <= Eval(v, env) {
          HeadIsPrefix(v, head, env);
        }
        return Prefix(JoinTexts(v.sep, head) + v.sep);
      }
      resolved := resolved + [lit.value];
      if stillLiteral && part.Str? {
        head := head + [part.text];
      } else {
        stillLiteral := false;
      }
    }
    assert v.parts[..|v.parts|] == v.parts;
    AllPartsKnown(v, params, region, resolved);
    return Exact(JoinTexts(v.sep, resolved));
  }

  lemma NotExact(v: Value, params: Params, region: string, i: nat)
    requires v.Join? && i < |v.parts| && PartText(v.parts[i], params, region).None?
    ensures !(Flat(v) && ResolveRoleName(v, params, region).Some?)
  {
  }

  lemma AllPartsKnown(v: Value, params: Params, region: string, texts: seq<string>)
    requires v.Join? && PartsResolve(v.parts, params, region, texts)
    ensures Flat(v) && ResolveRoleName(v, params, region) == Some(JoinTexts(v.sep, texts))
  {
    assert texts == seq(|v.parts|, i requires 0 <= i < |v.parts| => ResolveRoleName(v.parts[i], params, region).value);
  }

  // ---- existing_groups ----

  /** `describe_log_groups`: the existing groups whose name starts with the prefix. */
  function Describe(groups: seq<string>, prefix: string): (r: seq<string>)
    ensures forall g :: g in r <==> g in groups && prefix <= g
  {
    if groups == [] then []
    else
      var front, last := groups[..|groups| - 1], groups[|groups| - 1];
      assert groups == front + [last];
      Describe(front, prefix) + (if prefix <= last then [last] else [])
  }

  ghost predicate SomePrefix(prefixes: seq<string>, g: string) {
    exists p :: p in prefixes && p <= g
  }

  lemma SomePrefixNext(prefixes: seq<string>, i: nat, g: string)
    requires i < |prefixes|
    ensures SomePrefix(prefixes[..i + 1], g) <==> SomePrefix(prefixes[..i], g) || prefixes[i] <= g
  {
    assert prefixes[..i + 1] == prefixes[..i] + [prefixes[i]];
    if prefixes[i] <= g {
      assert prefixes[i] in prefixes[..i + 1];
    }
    if p :| p in prefixes[..i] && p <= g {
      assert p in prefixes[..i + 1];
    }
  }

  /** Which targets exist: those to delete, and those only matched by a prefix. */
  method ExistingGroups(groups: seq<string>, names: seq<string>, prefixes: seq<string>, allowPrefixDelete: bool)
    returns (found: set<string>, prefixOnly: set<string>)
    ensures forall g :: g in found <==> g in groups && (g in names || (allowPrefixDelete && SomePrefix(prefixes, g)))
    ensures forall g :: g in prefixOnly <==> g in groups && g !in names && !allowPrefixDelete && SomePrefix(prefixes, g)
  {
    found, prefixOnly := {}, {};
    for i := 0 to |names|
      invariant forall g :: g in found <==> g in groups && g in names[..i]
    {
      assert names[..i + 1] == names[..i] + [names[i]];
      if names[i] in Describe(groups, names[i]) {
        found := found + {names[i]};
      }
    }
    assert names[..|names|] == names;
    for i := 0 to |prefixes|
      invariant forall g :: g in found <==>
                  g in groups && (g in names || (allowPrefixDelete && SomePrefix(prefixes[..i], g)))
      invariant forall g :: g in prefixOnly <==>
                  g in groups && g !in names && !allowPrefixDelete && SomePrefix(prefixes[..i], g)
    {
      var listed := Describe(groups, prefixes[i]);
      var matched := set m | m in listed && m !in found;
      forall g ensures SomePrefix(prefixes[..i + 1], g) <==> SomePrefix(prefixes[..i], g) || prefixes[i] <= g {
        SomePrefixNext(prefixes, i, g);
      }
      if allowPrefixDelete {
        found := found + matched;
      } else {
        prefixOnly := prefixOnly + matched;
      }
    }
    assert prefixes[..|prefixes|] == prefixes;
  }

  /** A log group resource: its name, and the parameters of the template that declares it. */
  datatype Target = Target(name: Value, params: Params)
  {
    predicate Names(region: string, group: string) {
      IsExact(name, params, region, group)
    }

    predicate Starts(region: string, prefix: string) {
      IsOpen(name, params, region) && prefix == HeadText(name)
    }
  }

  /** The exact names and the prefixes of the targets of a region. */
  method CollectExact(targets: seq<Target>, region: string) returns (exact: seq<string>, prefixes: seq<string>)
    ensures forall n :: n in exact <==> NamedByTarget(targets, region, n)
    ensures forall p :: p in prefixes <==> HeadOfTarget(targets, region, p)
  {
    exact, prefixes := [], [];
    for i := 0 to |targets|
      invariant forall n :: n in exact <==> NamedByTarget(targets[..i], region, n)
      invariant forall p :: p in prefixes <==> HeadOfTarget(targets[..i], region, p)
    {
      var t := targets[i];
      TargetNext(targets, region, i);
      var r := ResolveGroupName(t.name, t.params, region);
      assert forall n :: t.Names(region, n) <==> r == Exact(n);
      assert forall p :: t.Starts(region, p) <==> r == Prefix(p);
      match r {
        case Exact(n) => exact := exact + [n];
        case Prefix(p) => prefixes := prefixes + [p];
        case Unresolved =>
      }
    }
    assert targets[..|targets|] == targets;
  }

  ghost predicate NamedByTarget(targets: seq<Target>, region: string, group: string) {
    exists t :: t in targets && t.Names(region, group)
  }

  ghost predicate HeadOfTarget(targets: seq<Target>, region: string, prefix: string) {
    exists t :: t in targets && t.Starts(region, prefix)
  }

  lemma TargetNext(targets: seq<Target>, region: string, i: nat)
    requires i < |targets|
    ensures forall n :: NamedByTarget(targets[..i + 1], region, n) <==>
                        NamedByTarget(targets[..i], region, n) || targets[i].Names(region, n)
    ensures forall p :: HeadOfTarget(targets[..i + 1], region, p) <==>
                        HeadOfTarget(targets[..i], region, p) || targets[i].Starts(region, p)
  {
    assert targets[..i + 1] == targets[..i] + [targets[i]];
    forall t ensures t in targets[..i + 1] <==> t in targets[..i] || t == targets[i] {
    }
  }

  /** The group starts with the literal head of a target whose name is not known exactly. */
  ghost predicate StartedByTarget(targets: seq<Target>, region: string, group: string) {
    exists p :: HeadOfTarget(targets, region, p) && p <= group
  }

  /** The groups a region loses: those named exactly and, only with the flag, those that start with the
      literal head of a target. */
  method Sweep(groups: seq<string>, targets: seq<Target>, region: string, allowPrefixDelete: bool)
    returns (deleted: set<string>)
    ensures forall g :: g in deleted <==>
              g in groups &&
              (NamedByTarget(targets, region, g) || (allowPrefixDelete && StartedByTarget(targets, region, g)))
  {
    var exact, prefixes := CollectExact(targets, region);
    var found, prefixOnly := ExistingGroups(groups, exact, prefixes, allowPrefixDelete);
    forall g ensures SomePrefix(prefixes, g) <==> StartedByTarget(targets, region, g) {
      if p :| HeadOfTarget(targets, region, p) && p <= g {
        assert p in prefixes;
      }
    }
    deleted := found;
  }

  /** A group named by a target is what the target evaluates to, whatever the unknown references are; one
      started by a target starts every evaluation alike. */
  lemma SweptGroupsEvaluate(targets: seq<Target>, region: string, group: string)
    ensures NamedByTarget(targets, region, group) ==>
              exists t :: t in targets && forall env | Consistent(env, t.params, region) :: Eval(t.name, env) == group
    ensures StartedByTarget(targets, region, group) ==>
              exists t :: t in targets && t.name.Join? && HeadText(t.name) <= group &&
                          forall env :: HeadText(t.name) <= Eval(t.name, env)
  {
    if t :| t in targets && t.Names(region, group) {
      forall env | Consistent(env, t.params, region) ensures Eval(t.name, env) == group {
        RoleNameSound(t.name, t.params, region, env);
      }
    }
    if p :| HeadOfTarget(targets, region, p) && p <= group {
      var t :| t in targets && t.Starts(region, p);
      forall env ensures HeadText(t.name) <= Eval(t.name, env) {
        OpenHeadIsShort(t.name, t.params, region);
        HeadIsPrefix(t.name, LiteralHead(t.name.parts), env);
      }
    }
  }

  /** A join of strings only is never open. */
  lemma OpenHeadIsShort(v: Value, params: Params, region: string)
    requires IsOpen(v, params, region)
    ensures |LiteralHead(v.parts)| < |v.parts|
  {
    if |LiteralHead(v.parts)| == |v.parts| {
      AllPartsKnown(v, params, region, LiteralHead(v.parts));
    }
  }
}
