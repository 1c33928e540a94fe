/** Planning and applying the permission change on one role, call by call. */
module RoleMigration {
  import opened Results
  import opened RolePolicies

  datatype Role = Role(inline: map<string, Document>, attached: set<string>)

  /** Inline policy name, its new document, and how many statements changed. */
  datatype Edit = Edit(name: string, newDoc: Document, removed: nat)

  /** The IAM calls that change a role. */
  datatype Call = PutPolicy(name: string, doc: Document) | DeletePolicy(name: string) | Detach(arn: string)

  const BASIC_EXECUTION_ARN := "arn:aws:iam::aws:policy/service-role/AWSLambdaBasicExecutionRole"
  const SCOPED_NAME := "LambdaScopedLogging"
  const KEEP_ACTIONS := ["logs:CreateLogStream", "logs:PutLogEvents"]

  function ScopedDocument(logGroupArn: string): Document {
    Document("2012-10-17", Many([Statement(Allow, Many(KEEP_ACTIONS), Absent, One(logGroupArn), Absent, "")]))
  }

  // ---- Evaluating a role ----

  /** Some policy of the role says so; `managed` holds the documents behind attached ARNs. */
  ghost predicate RoleSays(managed: map<string, Document>, role: Role, effect: Effect, req: Request) {
    || (exists n :: n in role.inline && Says(role.inline[n], effect, req))
    || (exists arn :: arn in role.attached && arn in managed && Says(managed[arn], effect, req))
  }

  /** An explicit deny overrides every allow. */
  ghost predicate Permits(managed: map<string, Document>, role: Role, req: Request) {
    RoleSays(managed, role, Allow, req) && !RoleSays(managed, role, Deny, req)
  }

  // ---- Calls ----

  function Perform(role: Role, call: Call): Role {
    match call
    case PutPolicy(name, doc) => role.(inline := role.inline[name := doc])
    case DeletePolicy(name) => role.(inline := role.inline - {name})
    case Detach(arn) => role.(attached := role.attached - {arn})
  }

  function PerformAll(role: Role, calls: seq<Call>): Role {
    if calls == [] then role else Perform(PerformAll(role, calls[..|calls| - 1]), calls[|calls| - 1])
  }

  function EditCall(edit: Edit): Call {
    if AsList(edit.newDoc.statement) != [] then PutPolicy(edit.name, edit.newDoc) else DeletePolicy(edit.name)
  }

  function EditCalls(edits: seq<Edit>): (calls: seq<Call>)
    ensures |calls| == |edits| && forall i | 0 <= i < |edits| :: calls[i] == EditCall(edits[i])
  {
    seq(|edits|, i requires 0 <= i < |edits| => EditCall(edits[i]))
  }

  function DetachCalls(detach: bool, logGroupArn: string): seq<Call> {
    if detach then [PutPolicy(SCOPED_NAME, ScopedDocument(logGroupArn)), Detach(BASIC_EXECUTION_ARN)] else []
  }

  /** The calls of one role's change, in order. */
  function Calls(edits: seq<Edit>, detach: bool, logGroupArn: string): seq<Call> {
    EditCalls(edits) + DetachCalls(detach, logGroupArn)
  }

  ghost function EditNames(edits: seq<Edit>): set<string> {
    set e | e in edits :: e.name
  }

  ghost predicate DistinctNames(edits: seq<Edit>) {
    forall i, j | 0 <= i < j < |edits| :: edits[i].name != edits[j].name
  }

  /** The plan for a role: one edit per inline policy that names the action, in any order. */
  ghost predicate IsPlan(role: Role, edits: seq<Edit>, detach: bool) {
    && DistinctNames(edits)
    && EditNames(edits) == (set n | n in role.inline && MentionsTarget(role.inline[n]))
    && (forall e | e in edits :: e.name in role.inline && e.newDoc == Stripped(role.inline[e.name]))
    && (detach <==> BASIC_EXECUTION_ARN in role.attached)
  }

  // ---- The IAM service, which may stop answering at any call ----

  class Iam {
    var roles: map<string, Role>
    var answers: nat  // calls that still succeed; the next one after them raises ClientError

    constructor (roles: map<string, Role>, answers: nat)
      ensures this.roles == roles && this.answers == answers
    {
      this.roles, this.answers := roles, answers;
    }

    /** One modifying call; the role is unchanged when it fails. */
    method Send(roleName: string, call: Call) returns (ok: bool)
      requires roleName in roles
      modifies this
      ensures ok <==> old(answers) > 0
      ensures answers == if ok then old(answers) - 1 else 0
      ensures roles == if ok then old(roles)[roleName := Perform(old(roles)[roleName], call)] else old(roles)
    {
      ok := answers > 0;
      if ok {
        answers := answers - 1;
        roles := roles[roleName := Perform(roles[roleName], call)];
      }
    }

    /** The names of the inline policies, in whatever order the service lists them. */
    method ListRolePolicies(roleName: string) returns (names: seq<string>)
      requires roleName in roles
      ensures forall i, j | 0 <= i < j < |names| :: names[i] != names[j]
      ensures forall n :: n in names <==> n in roles[roleName].inline
    {
      names := [];
      var left := roles[roleName].inline.Keys;
      while left != {}
        invariant forall i, j | 0 <= i < j < |names| :: names[i] != names[j]
        invariant left <= roles[roleName].inline.Keys
        invariant forall n :: n in names <==> n in roles[roleName].inline && n !in left
      {
        var n :| n in left;
        names, left := names + [n], left - {n};
      }
    }
  }

  method PlanRole(iam: Iam, roleName: string) returns (plan: Option<(seq<Edit>, bool)>)
    ensures plan.None? <==> roleName !in iam.roles
    ensures plan.Some? ==> IsPlan(iam.roles[roleName], plan.value.0, plan.value.1)
    ensures plan.Some? ==> forall e | e in plan.value.0 ::
              e.removed == Affected(AsList(iam.roles[roleName].inline[e.name].statement)) > 0
  {
    if roleName !in iam.roles {
      return None;
    }
    var role := iam.roles[roleName];
    var names := iam.ListRolePolicies(roleName);
    var edits := PlanEdits(role, names);
    return Some((edits, BASIC_EXECUTION_ARN in role.attached));
  }

  /** The edits of the policies listed in `names`. */
  ghost predicate AreEdits(role: Role, names: seq<string>, edits: seq<Edit>) {
    && DistinctNames(edits)
    && EditNames(edits) == (set n | n in names && n in role.inline && MentionsTarget(role.inline[n]))
    && (forall e | e in edits :: e.name in role.inline && e.newDoc == Stripped(role.inline[e.name]))
    && (forall e | e in edits :: e.removed == Affected(AsList(role.inline[e.name].statement)) > 0)
  }

  lemma OneMoreEdit(role: Role, names: seq<string>, edits: seq<Edit>, name: string, removed: nat)
    requires AreEdits(role, names, edits) && name !in names && name in role.inline
    requires removed == Affected(AsList(role.inline[name].statement))
    requires removed > 0 <==> MentionsTarget(role.inline[name])
    ensures AreEdits(role, names + [name],
                     if removed > 0 then edits + [Edit(name, Stripped(role.inline[name]), removed)] else edits)
  {
    assert name !in EditNames(edits);
    assert forall n :: n in names + [name] <==> n in names || n == name;
    if removed > 0 {
      NameAdded(edits, Edit(name, Stripped(role.inline[name]), removed));
    }
  }

  lemma NameAdded(edits: seq<Edit>, edit: Edit)
    requires DistinctNames(edits) && edit.name !in EditNames(edits)
    ensures DistinctNames(edits + [edit]) && EditNames(edits + [edit]) == EditNames(edits) + {edit.name}
    ensures forall e :: e in edits + [edit] <==> e in edits || e == edit
  {
    forall e ensures e in edits + [edit] <==> e in edits || e == edit {
    }
    forall i | 0 <= i < |edits| ensures edits[i].name in EditNames(edits) {
      assert edits[i] in edits;
    }
    assert edit in edits + [edit];
  }

  method PlanEdits(role: Role, names: seq<string>) returns (edits: seq<Edit>)
    requires forall i, j | 0 <= i < j < |names| :: names[i] != names[j]
    requires forall n :: n in names <==> n in role.inline
    ensures AreEdits(role, names, edits)
  {
    edits := [];
    for k := 0 to |names|
      invariant AreEdits(role, names[..k], edits)
    {
      var name := names[k];
      assert name in names && name !in names[..k];
      assert names[..k + 1] == names[..k] + [name];
      var newDoc, removed := StripAction(role.inline[name]);
      OneMoreEdit(role, names[..k], edits, name, removed);
      if removed > 0 {
        edits := edits + [Edit(name, newDoc, removed)];
      }
    }
    assert names[..|names|] == names;
  }

  lemma PerformNext(role: Role, calls: seq<Call>, k: nat)
    requires k < |calls|
    ensures PerformAll(role, calls[..k + 1]) == Perform(PerformAll(role, calls[..k]), calls[k])
  {
    assert calls[..k + 1][..k] == calls[..k];
  }

  lemma {:induction false} PerformConcat(role: Role, a: seq<Call>, b: seq<Call>)
    ensures PerformAll(role, a + b) == PerformAll(PerformAll(role, a), b)
    decreases |b|
  {
    if b == [] {
      assert a + b == a;
    } else {
      assert (a + b)[..|a + b| - 1] == a + b[..|b| - 1];
      PerformConcat(role, a, b[..|b| - 1]);
    }
  }

  function Least(a: nat, b: nat): nat {
    if a < b then a else b
  }

  method ApplyEdits(iam: Iam, roleName: string, edits: seq<Edit>) returns (ok: bool)
    requires roleName in iam.roles
    modifies iam
    ensures var sent := Least(old(iam.answers), |edits|);
            && (ok <==> sent == |edits|)
            && (ok ==> iam.answers == old(iam.answers) - |edits|)
            && iam.roles == old(iam.roles)[roleName := PerformAll(old(iam.roles)[roleName], EditCalls(edits)[..sent])]
  {
    ghost var calls := EditCalls(edits);
    ghost var role := iam.roles[roleName];
    assert calls[..0] == [];
    for i := 0 to |edits|
      invariant i <= old(iam.answers) && iam.answers == old(iam.answers) - i
      invariant iam.roles == old(iam.roles)[roleName := PerformAll(role, calls[..i])]
    {
      PerformNext(role, calls, i);
      ok := iam.Send(roleName, EditCall(edits[i]));
      if !ok {
        return;
      }
    }
    ok := true;
  }

  /** The replacement grant goes in before the managed policy comes off. */
  method DetachManaged(iam: Iam, roleName: string, logGroupArn: string) returns (ok: bool)
    requires roleName in iam.roles
    modifies iam
    ensures var calls := DetachCalls(true, logGroupArn);
            var sent := Least(old(iam.answers), 2);
            && (ok <==> sent == 2)
            && iam.roles == old(iam.roles)[roleName := PerformAll(old(iam.roles)[roleName], calls[..sent])]
  {
    ghost var calls := DetachCalls(true, logGroupArn);
    ghost var role := iam.roles[roleName];
    PerformNext(role, calls, 0);
    PerformNext(role, calls, 1);
    assert calls[..0] == [];
    ok := iam.Send(roleName, PutPolicy(SCOPED_NAME, ScopedDocument(logGroupArn)));
    if ok {
      ok := iam.Send(roleName, Detach(BASIC_EXECUTION_ARN));
    }
  }

  /** Sends the calls until one fails. Only this role changes, and it is left after some prefix of them. */
  method ApplyRole(iam: Iam, roleName: string, edits: seq<Edit>, detach: bool, logGroupArn: string) returns (ok: bool)
    requires roleName in iam.roles
    modifies iam
    ensures var calls := Calls(edits, detach, logGroupArn);
            var sent := Least(old(iam.answers), |calls|);
            && (ok <==> sent == |calls|)
            && iam.roles == old(iam.roles)[roleName := PerformAll(old(iam.roles)[roleName], calls[..sent])]
  {
    ghost var answers, role := iam.answers, iam.roles[roleName];
    ok := ApplyEdits(iam, roleName, edits);
    if !ok || !detach {
      EditsSent(edits, detach, logGroupArn, answers);
    } else {
      AllSent(role, edits, logGroupArn, answers);
      ok := DetachManaged(iam, roleName, logGroupArn);
    }
  }

  /** Stopping among the edits, or having nothing to detach, is a prefix of the edits alone. */
  lemma EditsSent(edits: seq<Edit>, detach: bool, logGroupArn: string, answers: nat)
    requires answers < |edits| || !detach
    ensures var calls := Calls(edits, detach, logGroupArn);
            && calls[..Least(answers, |calls|)] == EditCalls(edits)[..Least(answers, |edits|)]
            && (answers < |calls| <==> answers < |edits|)
  {
  }

  lemma AllSent(role: Role, edits: seq<Edit>, logGroupArn: string, answers: nat)
    requires answers >= |edits|
    ensures var calls, last := Calls(edits, true, logGroupArn), DetachCalls(true, logGroupArn);
            && |calls| == |edits| + 2
            && PerformAll(role, calls[..Least(answers, |calls|)]) ==
               PerformAll(PerformAll(role, EditCalls(edits)[..|edits|]), last[..Least(answers - |edits|, 2)])
  {
    var calls, last := Calls(edits, true, logGroupArn), DetachCalls(true, logGroupArn);
    var sent := Least(answers - |edits|, 2);
    assert calls[..Least(answers, |calls|)] == EditCalls(edits) + last[..sent];
    assert EditCalls(edits)[..|edits|] == EditCalls(edits);
    PerformConcat(role, EditCalls(edits), last[..sent]);
  }

  // ---- What each planned call is entitled to ----

  /** `call` is one the plan of `role` may send next. */
  ghost predicate OnPlan(role: Role, call: Call, logGroupArn: string) {
    match call
    case PutPolicy(name, doc) =>
      || (name in role.inline && doc == Stripped(role.inline[name]) && AsList(doc.statement) != [])
      || (name == SCOPED_NAME && doc == ScopedDocument(logGroupArn) && BASIC_EXECUTION_ARN in role.attached)
    case DeletePolicy(name) =>
      name in role.inline && AsList(Stripped(role.inline[name]).statement) == [] && MentionsTarget(role.inline[name])
    case Detach(arn) =>
      && arn == BASIC_EXECUTION_ARN
      && SCOPED_NAME in role.inline && role.inline[SCOPED_NAME] == ScopedDocument(logGroupArn)
  }

  /** Policies not yet edited are still as planned. */
  lemma {:induction false} EditsInProgress(role: Role, edits: seq<Edit>, detach: bool, k: nat)
    requires IsPlan(role, edits, detach) && k <= |edits|
    ensures var r := PerformAll(role, EditCalls(edits)[..k]);
            && r.attached == role.attached
            && (forall i | k <= i < |edits| ::
                  edits[i].name in r.inline && r.inline[edits[i].name] == role.inline[edits[i].name])
    decreases k
  {
    var calls := EditCalls(edits);
    if k > 0 {
      EditsInProgress(role, edits, detach, k - 1);
      PerformNext(role, calls, k - 1);
    } else {
      assert calls[..0] == [];
    }
  }

  lemma PlannedCallIsOnPlan(role: Role, edits: seq<Edit>, detach: bool, logGroupArn: string, k: nat)
    requires IsPlan(role, edits, detach) && k < |Calls(edits, detach, logGroupArn)|
    ensures var calls := Calls(edits, detach, logGroupArn);
            OnPlan(PerformAll(role, calls[..k]), calls[k], logGroupArn)
  {
    var calls := Calls(edits, detach, logGroupArn);
    var m := |edits|;
    if k <= m {
      EditsInProgress(role, edits, detach, k);
      assert calls[..k] == EditCalls(edits)[..k];
      if k < m {
        assert calls[k] == EditCall(edits[k]);
        assert edits[k] in edits && edits[k].name in EditNames(edits);
      }
    } else {
      PerformNext(role, calls, m);
      assert calls[m] == PutPolicy(SCOPED_NAME, ScopedDocument(logGroupArn));
    }
  }

  // ---- Main result: logging is permitted after every call ----

  /** A request for one of the two kept actions on the function's own log group. */
  ghost predicate OwnLogging(logGroupArn: string, req: Request) {
    && (exists a :: a in KEEP_ACTIONS && Lower(a) == Lower(req.action))
    && Glob(logGroupArn, req.resource)
  }

  lemma {:induction false} GlobReflexive(text: string)
    ensures Glob(text, text)
    decreases |text|
  {
    if text != "" {
      GlobReflexive(text[1..]);
    }
  }

  lemma KeepIsNotTarget(action: string)
    requires action in KEEP_ACTIONS
    ensures !IsTarget(action)
  {
    assert |KEEP_ACTIONS[0]| == 20 && |KEEP_ACTIONS[1]| == 17 && |TARGET_ACTION| == 19;
  }

  lemma ScopedAllowsLogging(logGroupArn: string, req: Request)
    requires OwnLogging(logGroupArn, req)
    ensures Says(ScopedDocument(logGroupArn), Allow, req) && !Says(ScopedDocument(logGroupArn), Deny, req)
    ensures !IsTarget(req.action)
  {
    var s := Statement(Allow, Many(KEEP_ACTIONS), Absent, One(logGroupArn), Absent, "");
    var a :| a in KEEP_ACTIONS && Lower(a) == Lower(req.action);
    GlobReflexive(Lower(a));
    KeepIsNotTarget(a);
    assert a in AsList(s.action) && logGroupArn in AsList(s.resource);
    assert Applies(s, req);
    assert s in AsList(ScopedDocument(logGroupArn).statement);
  }

  /** Replacing an inline policy by its stripped form, or deleting it when nothing is left, decides alike. */
  lemma EditKeepsDecisions(managed: map<string, Document>, role: Role, call: Call, effect: Effect, req: Request)
    requires !IsTarget(req.action)
    requires match call
             case PutPolicy(name, doc) => name in role.inline && doc == Stripped(role.inline[name])
             case DeletePolicy(name) => name in role.inline && AsList(Stripped(role.inline[name]).statement) == []
             case Detach(_) => false
    ensures RoleSays(managed, Perform(role, call), effect, req) <==> RoleSays(managed, role, effect, req)
  {
    var r := Perform(role, call);
    StripKeepsDecisions(role.inline[call.name], effect, req);
    if n :| n in role.inline && Says(role.inline[n], effect, req) {
      assert n in r.inline && Says(r.inline[n], effect, req);
    }
    if n :| n in r.inline && Says(r.inline[n], effect, req) {
      assert n in role.inline && Says(role.inline[n], effect, req);
    }
  }

  /** Granting the scoped policy, or detaching the managed one while it is granted. */
  lemma ScopedKeepsLogging(managed: map<string, Document>, role: Role, r: Role, logGroupArn: string, req: Request)
    requires OwnLogging(logGroupArn, req) && Permits(managed, role, req)
    requires SCOPED_NAME in r.inline && r.inline[SCOPED_NAME] == ScopedDocument(logGroupArn)
    requires forall n | n in r.inline && n != SCOPED_NAME :: n in role.inline && r.inline[n] == role.inline[n]
    requires r.attached <= role.attached
    ensures Permits(managed, r, req)
  {
    ScopedAllowsLogging(logGroupArn, req);
    assert forall n | n in r.inline :: !Says(r.inline[n], Deny, req);
  }

  lemma CallKeepsLogging(managed: map<string, Document>, role: Role, call: Call, logGroupArn: string, req: Request)
    requires OnPlan(role, call, logGroupArn) && OwnLogging(logGroupArn, req) && Permits(managed, role, req)
    ensures Permits(managed, Perform(role, call), req)
  {
    ScopedAllowsLogging(logGroupArn, req);
    if call.Detach? || (call.PutPolicy? && call.name == SCOPED_NAME && call.doc == ScopedDocument(logGroupArn)) {
      ScopedKeepsLogging(managed, role, Perform(role, call), logGroupArn, req);
    } else {
      EditKeepsDecisions(managed, role, call, Allow, req);
      EditKeepsDecisions(managed, role, call, Deny, req);
    }
  }

  /** If the role lets its function log, it still does wherever the sequence of calls stops. */
  lemma {:induction false} LoggingNeverLost(managed: map<string, Document>, role: Role, edits: seq<Edit>, detach: bool,
                                            logGroupArn: string, k: nat, req: Request)
    requires IsPlan(role, edits, detach) && k <= |Calls(edits, detach, logGroupArn)|
    requires OwnLogging(logGroupArn, req) && Permits(managed, role, req)
    ensures Permits(managed, PerformAll(role, Calls(edits, detach, logGroupArn)[..k]), req)
    decreases k
  {
    var calls := Calls(edits, detach, logGroupArn);
    if k > 0 {
      LoggingNeverLost(managed, role, edits, detach, logGroupArn, k - 1, req);
      PlannedCallIsOnPlan(role, edits, detach, logGroupArn, k - 1);
      PerformNext(role, calls, k - 1);
      CallKeepsLogging(managed, PerformAll(role, calls[..k - 1]), calls[k - 1], logGroupArn, req);
    }
  }

  // ---- Main result: a crash and a re-run converge ----

  /** What becomes of one inline policy, unless it is deleted. */
  ghost predicate Survives(doc: Document) {
    !MentionsTarget(doc) || AsList(Stripped(doc).statement) != []
  }

  ghost function KeptMap<T>(m: map<string, T>, keep: T -> bool, f: T -> T): map<string, T> {
    map n | n in m && keep(m[n]) :: f(m[n])
  }

  /** The state the whole change leads to. */
  ghost function Migrated(role: Role, logGroupArn: string): Role {
    var stripped := KeptMap(role.inline, Survives, Stripped);
    if BASIC_EXECUTION_ARN in role.attached
    then Role(stripped[SCOPED_NAME := ScopedDocument(logGroupArn)], role.attached - {BASIC_EXECUTION_ARN})
    else Role(stripped, role.attached)
  }

  lemma ScopedIsClean(logGroupArn: string)
    ensures !MentionsTarget(ScopedDocument(logGroupArn)) && AsList(ScopedDocument(logGroupArn).statement) != []
  {
    var s := Statement(Allow, Many(KEEP_ACTIONS), Absent, One(logGroupArn), Absent, "");
    assert AsList(ScopedDocument(logGroupArn).statement) == [s];
    forall a | a in KEEP_ACTIONS ensures !IsTarget(a) {
      KeepIsNotTarget(a);
    }
  }

  /** Editing a policy to one that survives alike, or dropping one that does not survive. */
  lemma KeptMapOfPut<T>(m: map<string, T>, keep: T -> bool, f: T -> T, name: string, v: T)
    requires name in m && keep(m[name]) && keep(v) && f(v) == f(m[name])
    ensures KeptMap(m[name := v], keep, f) == KeptMap(m, keep, f)
  {
  }

  lemma KeptMapOfDrop<T>(m: map<string, T>, keep: T -> bool, f: T -> T, name: string)
    requires name in m && !keep(m[name])
    ensures KeptMap(m - {name}, keep, f) == KeptMap(m, keep, f)
  {
  }

  lemma KeptMapBut<T>(m: map<string, T>, keep: T -> bool, f: T -> T, name: string, v: T, w: T)
    ensures KeptMap(m[name := v], keep, f)[name := w] == KeptMap(m, keep, f)[name := w]
  {
  }

  lemma KeptMapSame<T>(m: map<string, T>, keep: T -> bool, f: T -> T, name: string)
    requires name in m && keep(m[name]) && f(m[name]) == m[name]
    ensures KeptMap(m, keep, f)[name := m[name]] == KeptMap(m, keep, f)
  {
  }

  lemma StrippedSurvives(doc: Document)
    requires AsList(Stripped(doc).statement) != []
    ensures Survives(doc) && Survives(Stripped(doc)) && Stripped(Stripped(doc)) == Stripped(doc)
  {
    StripRemovesTarget(doc);
  }

  lemma PutKeepsGoal(role: Role, name: string, doc: Document, logGroupArn: string)
    requires name in role.inline && doc == Stripped(role.inline[name]) && AsList(doc.statement) != []
    ensures Migrated(Perform(role, PutPolicy(name, doc)), logGroupArn) == Migrated(role, logGroupArn)
  {
    StrippedSurvives(role.inline[name]);
    KeptMapOfPut(role.inline, Survives, Stripped, name, doc);
  }

  lemma ScopedKeepsGoal(role: Role, logGroupArn: string)
    requires BASIC_EXECUTION_ARN in role.attached
    ensures Migrated(Perform(role, PutPolicy(SCOPED_NAME, ScopedDocument(logGroupArn))), logGroupArn) ==
            Migrated(role, logGroupArn)
  {
    var scoped := ScopedDocument(logGroupArn);
    KeptMapBut(role.inline, Survives, Stripped, SCOPED_NAME, scoped, scoped);
  }

  lemma DeleteKeepsGoal(role: Role, name: string, logGroupArn: string)
    requires name in role.inline && !Survives(role.inline[name])
    ensures Migrated(Perform(role, DeletePolicy(name)), logGroupArn) == Migrated(role, logGroupArn)
  {
    KeptMapOfDrop(role.inline, Survives, Stripped, name);
  }

  lemma DetachKeepsGoal(role: Role, logGroupArn: string)
    requires SCOPED_NAME in role.inline && role.inline[SCOPED_NAME] == ScopedDocument(logGroupArn)
    ensures Migrated(Perform(role, Detach(BASIC_EXECUTION_ARN)), logGroupArn) == Migrated(role, logGroupArn)
  {
    ScopedStays(logGroupArn);
    KeptMapSame(role.inline, Survives, Stripped, SCOPED_NAME);
  }

  lemma ScopedStays(logGroupArn: string)
    ensures Survives(ScopedDocument(logGroupArn))
    ensures Stripped(ScopedDocument(logGroupArn)) == ScopedDocument(logGroupArn)
  {
    ScopedIsClean(logGroupArn);
  }

  /** Every planned call leaves the goal where it was. */
  lemma CallKeepsGoal(role: Role, call: Call, logGroupArn: string)
    requires OnPlan(role, call, logGroupArn)
    ensures Migrated(Perform(role, call), logGroupArn) == Migrated(role, logGroupArn)
  {
    match call
    case PutPolicy(name, doc) =>
      if name in role.inline && doc == Stripped(role.inline[name]) && AsList(doc.statement) != [] {
        PutKeepsGoal(role, name, doc, logGroupArn);
      } else {
        ScopedKeepsGoal(role, logGroupArn);
      }
    case DeletePolicy(name) => DeleteKeepsGoal(role, name, logGroupArn);
    case Detach(arn) => DetachKeepsGoal(role, logGroupArn);
  }

  lemma {:induction false} GoalNeverMoves(role: Role, edits: seq<Edit>, detach: bool, logGroupArn: string, k: nat)
    requires IsPlan(role, edits, detach) && k <= |Calls(edits, detach, logGroupArn)|
    ensures Migrated(PerformAll(role, Calls(edits, detach, logGroupArn)[..k]), logGroupArn) ==
            Migrated(role, logGroupArn)
    decreases k
  {
    var calls := Calls(edits, detach, logGroupArn);
    if k > 0 {
      GoalNeverMoves(role, edits, detach, logGroupArn, k - 1);
      PlannedCallIsOnPlan(role, edits, detach, logGroupArn, k - 1);
      PerformNext(role, calls, k - 1);
      CallKeepsGoal(PerformAll(role, calls[..k - 1]), calls[k - 1], logGroupArn);
    }
  }

  ghost predicate CleanBut(role: Role, names: set<string>) {
    forall n | n in role.inline && MentionsTarget(role.inline[n]) :: n in names
  }

  lemma EditCleans(role: Role, edit: Edit, names: set<string>)
    requires CleanBut(role, {edit.name} + names) && !MentionsTarget(edit.newDoc)
    ensures CleanBut(Perform(role, EditCall(edit)), names)
  {
  }

  lemma FirstEditName(edits: seq<Edit>, k: nat)
    requires k < |edits|
    ensures EditNames(edits[k..]) == {edits[k].name} + EditNames(edits[k + 1..])
  {
    assert edits[k..] == [edits[k]] + edits[k + 1..];
  }

  lemma NextEditCleans(role: Role, edits: seq<Edit>, k: nat)
    requires k < |edits| && !MentionsTarget(edits[k].newDoc)
    requires CleanBut(PerformAll(role, EditCalls(edits)[..k]), EditNames(edits[k..]))
    ensures CleanBut(PerformAll(role, EditCalls(edits)[..k + 1]), EditNames(edits[k + 1..]))
  {
    PerformNext(role, EditCalls(edits), k);
    FirstEditName(edits, k);
    EditCleans(PerformAll(role, EditCalls(edits)[..k]), edits[k], EditNames(edits[k + 1..]));
  }

  ghost predicate AllClean(edits: seq<Edit>) {
    forall i | 0 <= i < |edits| :: !MentionsTarget(edits[i].newDoc)
  }

  lemma PlanIsClean(role: Role, edits: seq<Edit>, detach: bool)
    requires IsPlan(role, edits, detach)
    ensures AllClean(edits) && CleanBut(role, EditNames(edits))
  {
    forall i | 0 <= i < |edits| ensures !MentionsTarget(edits[i].newDoc) {
      assert edits[i] in edits;
      StripRemovesTarget(role.inline[edits[i].name]);
    }
  }

  /** Only policies whose edit is still to come name the action. */
  lemma {:induction false} EditsClean(role: Role, edits: seq<Edit>, k: nat)
    requires AllClean(edits) && CleanBut(role, EditNames(edits)) && k <= |edits|
    ensures CleanBut(PerformAll(role, EditCalls(edits)[..k]), EditNames(edits[k..]))
    decreases k
  {
    if k == 0 {
      assert EditCalls(edits)[..0] == [] && edits[0..] == edits;
    } else {
      EditsClean(role, edits, k - 1);
      NextEditCleans(role, edits, k - 1);
    }
  }

  ghost predicate Done(role: Role) {
    && (forall n | n in role.inline :: !MentionsTarget(role.inline[n]))
    && BASIC_EXECUTION_ARN !in role.attached
  }

  lemma UninterruptedIsDone(role: Role, edits: seq<Edit>, detach: bool, logGroupArn: string)
    requires IsPlan(role, edits, detach)
    ensures Done(PerformAll(role, Calls(edits, detach, logGroupArn)))
  {
    var m := |edits|;
    PlanIsClean(role, edits, detach);
    EditsClean(role, edits, m);
    EditsInProgress(role, edits, detach, m);
    assert EditCalls(edits)[..m] == EditCalls(edits);
    assert EditNames(edits[m..]) == {};
    var r := PerformAll(role, EditCalls(edits));
    PerformConcat(role, EditCalls(edits), DetachCalls(detach, logGroupArn));
    if detach {
      var last := DetachCalls(true, logGroupArn);
      assert last[..0] == [];
      PerformNext(r, last, 0);
      PerformNext(r, last, 1);
      assert last[..2] == last;
      ScopedIsClean(logGroupArn);
    } else {
      assert Calls(edits, detach, logGroupArn) == EditCalls(edits);
    }
  }

  lemma DoneIsMigrated(role: Role, logGroupArn: string)
    requires Done(role)
    ensures Migrated(role, logGroupArn) == role
  {
    assert Migrated(role, logGroupArn).inline == role.inline;
  }

  /** An uninterrupted run reaches the goal, whatever order the policies were listed in. */
  lemma ApplyReachesGoal(role: Role, edits: seq<Edit>, detach: bool, logGroupArn: string)
    requires IsPlan(role, edits, detach)
    ensures PerformAll(role, Calls(edits, detach, logGroupArn)) == Migrated(role, logGroupArn)
    ensures Done(Migrated(role, logGroupArn))
  {
    var calls := Calls(edits, detach, logGroupArn);
    GoalNeverMoves(role, edits, detach, logGroupArn, |calls|);
    assert calls[..|calls|] == calls;
    UninterruptedIsDone(role, edits, detach, logGroupArn);
    DoneIsMigrated(PerformAll(role, calls), logGroupArn);
  }

  /** What the goal is: the managed policy is gone, and if it was attached the scoped grant is there; every
      other inline policy is the stripped one. */
  lemma MigratedRole(role: Role, logGroupArn: string)
    ensures var r := Migrated(role, logGroupArn);
            var managed := "arn:aws:iam::aws:policy/service-role/AWSLambdaBasicExecutionRole";
            && r.attached == role.attached - {managed}
            && (managed in role.attached ==>
                  && "LambdaScopedLogging" in r.inline
                  && r.inline["LambdaScopedLogging"] ==
                     Document("2012-10-17", Many([Statement(Allow, Many(["logs:CreateLogStream", "logs:PutLogEvents"]),
                                                            Absent, One(logGroupArn), Absent, "")])))
            && (forall n | n in r.inline && (n != "LambdaScopedLogging" || managed !in role.attached) ::
                  n in role.inline && r.inline[n] == Stripped(role.inline[n]))
  {
  }

  /** An inline policy is deleted exactly when it has statements and every one names the action and nothing
      else. */
  lemma PolicyDeletedIff(role: Role, logGroupArn: string, name: string)
    requires name in role.inline && (name != SCOPED_NAME || BASIC_EXECUTION_ARN !in role.attached)
    ensures var statements := AsList(role.inline[name].statement);
            name !in Migrated(role, logGroupArn).inline <==>
            statements != [] && forall s | s in statements :: NamesOnlyTarget(s)
  {
    var statements := AsList(role.inline[name].statement);
    NothingLeftIff(statements);
    if statements != [] && forall s | s in statements :: NamesOnlyTarget(s) {
      assert statements[0] in statements && NamesTarget(statements[0]);
    }
  }

  /** Stop after any number of calls, plan again and run to the end: the same role results. */
  lemma RerunConverges(role: Role, edits: seq<Edit>, detach: bool, k: nat, edits': seq<Edit>, detach': bool,
                       logGroupArn: string)
    requires IsPlan(role, edits, detach) && k <= |Calls(edits, detach, logGroupArn)|
    requires IsPlan(PerformAll(role, Calls(edits, detach, logGroupArn)[..k]), edits', detach')
    ensures PerformAll(PerformAll(role, Calls(edits, detach, logGroupArn)[..k]), Calls(edits', detach', logGroupArn)) ==
            PerformAll(role, Calls(edits, detach, logGroupArn))
  {
    GoalNeverMoves(role, edits, detach, logGroupArn, k);
    ApplyReachesGoal(role, edits, detach, logGroupArn);
    ApplyReachesGoal(PerformAll(role, Calls(edits, detach, logGroupArn)[..k]), edits', detach', logGroupArn);
  }

  /** Planning finds nothing to do exactly on roles that are done. */
  lemma NothingLeftIffDone(role: Role, edits: seq<Edit>, detach: bool)
    requires IsPlan(role, edits, detach)
    ensures Done(role) <==> edits == [] && !detach
  {
    if edits != [] {
      assert edits[0] in edits && edits[0].name in EditNames(edits);
    }
    forall n | n in role.inline && MentionsTarget(role.inline[n]) ensures n in EditNames(edits) {
    }
  }

  // ---- Main result: exactly what the migration changes ----

  ghost predicate Detaching(role: Role) {
    BASIC_EXECUTION_ARN in role.attached
  }

  /** Something that stays says so: an inline policy that is not overwritten, without literal mentions of
      the target action, or another managed policy. */
  ghost predicate Remaining(managed: map<string, Document>, role: Role, effect: Effect, req: Request) {
    || InlineRemaining(role, effect, req)
    || (exists arn :: arn in role.attached && arn != BASIC_EXECUTION_ARN && arn in managed &&
                      Says(managed[arn], effect, req))
  }

  /** Something that goes says so: a literal mention of the target action, an inline policy that the scoped
      one overwrites, or the detached managed policy. */
  ghost predicate Removed(managed: map<string, Document>, role: Role, effect: Effect, req: Request) {
    || (exists n :: n in role.inline && LiterallySays(role.inline[n], effect, req))
    || (Detaching(role) && SCOPED_NAME in role.inline && Says(role.inline[SCOPED_NAME], effect, req))
    || (Detaching(role) && BASIC_EXECUTION_ARN in managed && Says(managed[BASIC_EXECUTION_ARN], effect, req))
  }

  /** The new scoped policy allows it. */
  ghost predicate Granted(role: Role, logGroupArn: string, req: Request) {
    && Detaching(role)
    && (exists a :: a in KEEP_ACTIONS && Lower(a) == Lower(req.action))
    && Glob(logGroupArn, req.resource)
  }

  lemma KeepActionsLiteral(action: string)
    requires action in KEEP_ACTIONS
    ensures Literal(Lower(action))
  {
    assert forall i | 0 <= i < |KEEP_ACTIONS[0]| :: KEEP_ACTIONS[0][i] >= '@' || KEEP_ACTIONS[0][i] == ':';
    assert forall i | 0 <= i < |KEEP_ACTIONS[1]| :: KEEP_ACTIONS[1][i] >= '@' || KEEP_ACTIONS[1][i] == ':';
  }

  lemma ScopedSays(logGroupArn: string, effect: Effect, req: Request)
    ensures Says(ScopedDocument(logGroupArn), effect, req) <==>
              effect == Allow && (exists a :: a in KEEP_ACTIONS && Lower(a) == Lower(req.action)) &&
              Glob(logGroupArn, req.resource)
  {
    var s := Statement(Allow, Many(KEEP_ACTIONS), Absent, One(logGroupArn), Absent, "");
    assert AsList(ScopedDocument(logGroupArn).statement) == [s];
    assert logGroupArn in AsList(s.resource);
    forall a | a in KEEP_ACTIONS ensures Glob(Lower(a), Lower(req.action)) <==> Lower(a) == Lower(req.action) {
      KeepActionsLiteral(a);
      LiteralGlob(Lower(a), Lower(req.action));
    }
  }

  /** What a role says comes from what stays or from what goes. */
  lemma RoleSaysSplit(managed: map<string, Document>, role: Role, effect: Effect, req: Request)
    ensures RoleSays(managed, role, effect, req) <==>
              Remaining(managed, role, effect, req) || Removed(managed, role, effect, req)
  {
    forall n | n in role.inline
      ensures Says(role.inline[n], effect, req) <==>
                WildcardSays(role.inline[n], effect, req) || LiterallySays(role.inline[n], effect, req)
    {
      SaysSplit(role.inline[n], effect, req);
    }
  }

  ghost predicate InlineRemaining(role: Role, effect: Effect, req: Request) {
    exists n :: n in role.inline && !(n == SCOPED_NAME && Detaching(role)) && WildcardSays(role.inline[n], effect, req)
  }

  lemma StrippedInlineSays(doc: Document, effect: Effect, req: Request)
    ensures Survives(doc) && Says(Stripped(doc), effect, req) <==> WildcardSays(doc, effect, req)
  {
    StripLeavesWildcards(doc, effect, req);
  }

  lemma InlineAfterMigration(role: Role, logGroupArn: string, effect: Effect, req: Request)
    ensures var r := Migrated(role, logGroupArn);
            (exists n :: n in r.inline && Says(r.inline[n], effect, req)) <==>
            InlineRemaining(role, effect, req) || (effect == Allow && Granted(role, logGroupArn, req))
  {
    var r := Migrated(role, logGroupArn);
    ScopedSays(logGroupArn, effect, req);
    forall n | n in role.inline
      ensures Survives(role.inline[n]) && Says(Stripped(role.inline[n]), effect, req) <==>
                WildcardSays(role.inline[n], effect, req)
    {
      StrippedInlineSays(role.inline[n], effect, req);
    }
    if n :| n in role.inline && !(n == SCOPED_NAME && Detaching(role)) && WildcardSays(role.inline[n], effect, req) {
      assert n in r.inline && Says(r.inline[n], effect, req);
    }
    if Detaching(role) {
      assert r.inline[SCOPED_NAME] == ScopedDocument(logGroupArn);
    }
  }

  lemma MigratedSays(managed: map<string, Document>, role: Role, logGroupArn: string, effect: Effect, req: Request)
    ensures RoleSays(managed, Migrated(role, logGroupArn), effect, req) <==>
              Remaining(managed, role, effect, req) || (effect == Allow && Granted(role, logGroupArn, req))
  {
    InlineAfterMigration(role, logGroupArn, effect, req);
  }

  /** For every request, what a migrated role permits, in terms of the original role. */
  lemma PermitsAfterMigration(managed: map<string, Document>, role: Role, logGroupArn: string, req: Request)
    ensures Permits(managed, Migrated(role, logGroupArn), req) <==>
              (Remaining(managed, role, Allow, req) || Granted(role, logGroupArn, req)) &&
              !Remaining(managed, role, Deny, req)
  {
    MigratedSays(managed, role, logGroupArn, Allow, req);
    MigratedSays(managed, role, logGroupArn, Deny, req);
  }

  /** For every request, exactly when the migration takes a permission away, and when it gives one. */
  lemma MigrationEffect(managed: map<string, Document>, role: Role, logGroupArn: string, req: Request)
    ensures Permits(managed, role, req) && !Permits(managed, Migrated(role, logGroupArn), req) <==>
              && Removed(managed, role, Allow, req) && !Removed(managed, role, Deny, req)
              && !Remaining(managed, role, Allow, req) && !Remaining(managed, role, Deny, req)
              && !Granted(role, logGroupArn, req)
    ensures !Permits(managed, role, req) && Permits(managed, Migrated(role, logGroupArn), req) <==>
              && !Remaining(managed, role, Deny, req)
              && ((Removed(managed, role, Deny, req) &&
                   (Remaining(managed, role, Allow, req) || Granted(role, logGroupArn, req))) ||
                  (Granted(role, logGroupArn, req) &&
                   !Remaining(managed, role, Allow, req) && !Removed(managed, role, Allow, req)))
  {
    RoleSaysSplit(managed, role, Allow, req);
    RoleSaysSplit(managed, role, Deny, req);
    PermitsAfterMigration(managed, role, logGroupArn, req);
  }

  /** A migrated role permits the target action exactly when something other than a literal mention or
      the detached policy allows it and nothing of that kind denies it. */
  lemma TargetAfterMigration(managed: map<string, Document>, role: Role, logGroupArn: string, req: Request)
    requires IsTarget(req.action)
    ensures Permits(managed, Migrated(role, logGroupArn), req) <==>
              Remaining(managed, role, Allow, req) && !Remaining(managed, role, Deny, req)
  {
    PermitsAfterMigration(managed, role, logGroupArn, req);
    forall a | a in KEEP_ACTIONS ensures Lower(a) != Lower(req.action) {
      KeepIsNotTarget(a);
    }
  }

  const ALLOW_ALL := Statement(Allow, One("*"), Absent, One("*"), Absent, "")
  const DENY_TARGET := Statement(Deny, One(TARGET_ACTION), Absent, One("*"), Absent, "")
  const MIXED := Document("2012-10-17", Many([ALLOW_ALL, DENY_TARGET]))

  lemma TargetIsLower()
    ensures IsTarget(TARGET_ACTION)
  {
    assert forall i | 0 <= i < |TARGET_ACTION| :: LowerChar(TARGET_ACTION[i]) == TARGET_ACTION[i];
    assert Lower(TARGET_ACTION) == TARGET_ACTION;
  }

  lemma AllowAllByWildcard(req: Request)
    ensures AppliesByWildcard(ALLOW_ALL, req)
  {
    StarMatches(Lower(req.action));
    StarMatches(req.resource);
    assert Lower("*") == "*";
    assert !IsTarget("*") by {
      assert |TARGET_ACTION| == 19;
    }
    assert "*" in AsList(ALLOW_ALL.action) && "*" in AsList(ALLOW_ALL.resource);
  }

  lemma DenyTargetLiterally(req: Request)
    requires req.action == TARGET_ACTION
    ensures Applies(DENY_TARGET, req) && !AppliesByWildcard(DENY_TARGET, req)
  {
    TargetIsLower();
    GlobReflexive(TARGET_ACTION);
    StarMatches(req.resource);
    assert TARGET_ACTION in AsList(DENY_TARGET.action) && "*" in AsList(DENY_TARGET.resource);
  }

  lemma MixedDocument(req: Request)
    requires req.action == TARGET_ACTION
    ensures Says(MIXED, Deny, req)
    ensures WildcardSays(MIXED, Allow, req) && !WildcardSays(MIXED, Deny, req)
  {
    AllowAllByWildcard(req);
    DenyTargetLiterally(req);
    var ss := AsList(MIXED.statement);
    assert ss[0] == ALLOW_ALL && ss[1] == DENY_TARGET;
  }

  lemma {:induction false} StarMatches(text: string)
    ensures Glob("*", text)
    decreases |text|
  {
    if text != "" {
      StarMatches(text[1..]);
    }
  }

  /** So the change can hand the action to a role that was denied it: a literal denial is dropped
      together with the grants, and a wildcard grant then prevails. */
  lemma LiteralDenialIsLost(logGroupArn: string) returns (role: Role, req: Request)
    ensures IsTarget(req.action) && !Permits(map[], role, req) && Permits(map[], Migrated(role, logGroupArn), req)
  {
    role := Role(map["p" := MIXED], {});
    req := Request(TARGET_ACTION, "arn:aws:logs:us-east-1:123456789012:log-group:/aws/lambda/f", {});
    TargetIsLower();
    MixedDocument(req);
    assert role.inline["p"] == MIXED;
    TargetAfterMigration(map[], role, logGroupArn, req);
  }
}
