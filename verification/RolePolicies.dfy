/** IAM policy documents, their evaluation with explicit deny, and dropping one action from them. */
module RolePolicies {
  import opened Ordering

  /** IAM renders a single-element list as a bare value. */
  datatype OneOrMany<T> = Absent | One(value: T) | Many(values: seq<T>)

  function AsList<T>(v: OneOrMany<T>): seq<T> {
    match v
    case Absent => []
    case One(x) => [x]
    case Many(xs) => xs
  }

  datatype Effect = Allow | Deny

  datatype Statement = Statement(
    effect: Effect,
    action: OneOrMany<string>,
    notAction: OneOrMany<string>,
    resource: OneOrMany<string>,
    notResource: OneOrMany<string>,
    condition: string)  // "" when unconditional

  datatype Document = Document(version: string, statement: OneOrMany<Statement>)

  // ---- Evaluation ----

  function LowerChar(c: char): char {
    if 'A' <= c <= 'Z' then (c as int + 32) as char else c
  }

  function Lower(s: string): (r: string)
    ensures |r| == |s| && forall i | 0 <= i < |s| :: r[i] == LowerChar(s[i])
  {
    seq(|s|, i requires 0 <= i < |s| => LowerChar(s[i]))
  }

  /** IAM wildcards: `*` stands for any text, `?` for one character. */
  predicate Glob(pattern: string, text: string)
    decreases |pattern| + |text|
  {
    if pattern == "" then text == ""
    else if pattern[0] == '*' then Glob(pattern[1..], text) || (text != "" && Glob(pattern, text[1..]))
    else text != "" && (pattern[0] == '?' || pattern[0] == text[0]) && Glob(pattern[1..], text[1..])
  }

  /** A request together with the conditions that hold of it. */
  datatype Request = Request(action: string, resource: string, conditions: set<string>)

  ghost predicate SomeActionMatches(patterns: OneOrMany<string>, action: string) {
    exists p :: p in AsList(patterns) && Glob(Lower(p), Lower(action))
  }

  ghost predicate SomeResourceMatches(patterns: OneOrMany<string>, resource: string) {
    exists p :: p in AsList(patterns) && Glob(p, resource)
  }

  ghost predicate Applies(s: Statement, req: Request) {
    && (if s.action.Absent? then !s.notAction.Absent? && !SomeActionMatches(s.notAction, req.action)
        else SomeActionMatches(s.action, req.action))
    && (if s.resource.Absent? then !s.notResource.Absent? && !SomeResourceMatches(s.notResource, req.resource)
        else SomeResourceMatches(s.resource, req.resource))
    && (s.condition == "" || s.condition in req.conditions)
  }

  /** Some statement with this effect applies. */
  ghost predicate Says(doc: Document, effect: Effect, req: Request) {
    exists s :: s in AsList(doc.statement) && s.effect == effect && Applies(s, req)
  }

  /** What a pattern matches, by its first character. */
  lemma GlobMeaning(rest: string, c: char, text: string)
    ensures Glob("", text) <==> text == ""
    ensures Glob("*" + rest, text) <==> exists i :: 0 <= i <= |text| && Glob(rest, text[i..])
    ensures Glob("?" + rest, text) <==> text != "" && Glob(rest, text[1..])
    ensures c != '*' && c != '?' ==> (Glob([c] + rest, text) <==> text != "" && text[0] == c && Glob(rest, text[1..]))
  {
    GlobStar(rest, text);
    assert ("?" + rest)[1..] == rest && ([c] + rest)[1..] == rest;
  }

  lemma {:induction false} GlobStar(rest: string, text: string)
    ensures Glob("*" + rest, text) <==> exists i :: 0 <= i <= |text| && Glob(rest, text[i..])
    decreases |text|
  {
    assert ("*" + rest)[1..] == rest && text[0..] == text;
    if text != "" {
      GlobStar(rest, text[1..]);
      if i :| 0 <= i <= |text[1..]| && Glob(rest, text[1..][i..]) {
        assert text[1..][i..] == text[i + 1..];
      }
      if i :| 1 <= i <= |text| && Glob(rest, text[i..]) {
        assert text[1..][i - 1..] == text[i..];
      }
    }
  }

  // ---- Patterns without wildcards ----

  ghost predicate Literal(pattern: string) {
    forall i | 0 <= i < |pattern| :: pattern[i] != '*' && pattern[i] != '?'
  }

  lemma {:induction false} LiteralGlob(pattern: string, text: string)
    requires Literal(pattern)
    ensures Glob(pattern, text) <==> pattern == text
    decreases |pattern|
  {
    if pattern != "" && text != "" {
      LiteralGlob(pattern[1..], text[1..]);
      assert pattern == [pattern[0]] + pattern[1..] && text == [text[0]] + text[1..];
    }
  }

  // ---- strip_action ----

  const TARGET_ACTION := "logs:createloggroup"

  predicate IsTarget(action: string) {
    Lower(action) == TARGET_ACTION
  }

  /** The action in any mixture of upper-case and lower-case letters. */
  lemma TargetIgnoresCase(action: string)
    ensures IsTarget(action) <==>
              |action| == |"logs:createloggroup"| &&
              forall i | 0 <= i < |action| ::
                var c := "logs:createloggroup"[i];
                action[i] == c || ('a' <= c <= 'z' && action[i] as int + 32 == c as int)
  {
    TargetHasNoCapitals();
    if |action| == |TARGET_ACTION| {
      forall i | 0 <= i < |action|
        ensures LowerChar(action[i]) == TARGET_ACTION[i] <==>
                  action[i] == TARGET_ACTION[i] ||
                  ('a' <= TARGET_ACTION[i] <= 'z' && action[i] as int + 32 == TARGET_ACTION[i] as int)
      {
      }
    }
  }

  lemma TargetHasNoCapitals()
    ensures forall i | 0 <= i < |TARGET_ACTION| :: !('A' <= TARGET_ACTION[i] <= 'Z')
  {
  }

  lemma TargetMatchesOnlyItself(action: string, requested: string)
    requires IsTarget(action)
    ensures Glob(Lower(action), Lower(requested)) <==> IsTarget(requested)
  {
    LiteralGlob(TARGET_ACTION, Lower(requested));
  }

  function KeptActions(actions: seq<string>): seq<string> {
    Filter(actions, a => !IsTarget(a))
  }

  predicate NamesTarget(s: Statement) {
    exists a :: a in AsList(s.action) && IsTarget(a)
  }

  lemma {:induction false} KeptAll(actions: seq<string>)
    ensures |KeptActions(actions)| == |actions| <==> forall a | a in actions :: !IsTarget(a)
    ensures (forall a | a in actions :: !IsTarget(a)) ==> KeptActions(actions) == actions
    decreases |actions|
  {
    if actions != [] {
      KeptAll(actions[1..]);
      assert actions == [actions[0]] + actions[1..];
    }
  }

  /** What a statement becomes: itself, itself without the target action, or nothing. */
  function StripStatement(s: Statement): (r: seq<Statement>) {
    var kept := KeptActions(AsList(s.action));
    if |kept| == |AsList(s.action)| then [s]
    else if kept == [] then []
    else [s.(action := if |kept| > 1 then Many(kept) else One(kept[0]))]
  }

  function StripStatements(ss: seq<Statement>): (r: seq<Statement>) {
    if ss == [] then []
    else StripStatements(ss[..|ss| - 1]) + StripStatement(ss[|ss| - 1])
  }

  ghost predicate MentionsTarget(doc: Document) {
    exists s :: s in AsList(doc.statement) && NamesTarget(s)
  }

  /** The document with the target action dropped; untouched when it does not name it. */
  ghost function Stripped(doc: Document): Document {
    if MentionsTarget(doc) then doc.(statement := Many(StripStatements(AsList(doc.statement)))) else doc
  }

  function Affected(ss: seq<Statement>): nat {
    if ss == [] then 0
    else Affected(ss[..|ss| - 1]) + (if NamesTarget(ss[|ss| - 1]) then 1 else 0)
  }

  lemma {:induction false} AffectedNone(ss: seq<Statement>)
    ensures Affected(ss) == 0 <==> forall s | s in ss :: !NamesTarget(s)
    decreases |ss|
  {
    if ss != [] {
      AffectedNone(ss[..|ss| - 1]);
      assert ss == ss[..|ss| - 1] + [ss[|ss| - 1]];
    }
  }

  lemma StripNext(all: seq<Statement>, i: nat)
    requires i < |all|
    ensures StripStatements(all[..i + 1]) == StripStatements(all[..i]) + StripStatement(all[i])
    ensures Affected(all[..i + 1]) == Affected(all[..i]) + (if NamesTarget(all[i]) then 1 else 0)
  {
    TakeTake(all, i);
  }

  /** A statement that does not name the action is kept; one that names nothing else is dropped; any other keeps
      its other actions, a single one as a bare value, and all its other fields. */
  lemma StripStatementExact(s: Statement)
    ensures !NamesTarget(s) ==> StripStatement(s) == [s]
    ensures NamesTarget(s) && (forall a | a in AsList(s.action) :: IsTarget(a)) ==> StripStatement(s) == []
    ensures NamesTarget(s) && (exists a :: a in AsList(s.action) && !IsTarget(a)) ==>
              var r := StripStatement(s);
              && |r| == 1 && r[0] == s.(action := r[0].action)
              && AsList(r[0].action) == Filter(AsList(s.action), a => !IsTarget(a))
              && (r[0].action.One? <==> |AsList(r[0].action)| == 1)
  {
    KeptAll(AsList(s.action));
    var kept := KeptActions(AsList(s.action));
    assert kept != [] ==> kept[0] in kept;
  }

  /** Statements are stripped one by one, in their order. */
  lemma {:induction false} StripInOrder(a: seq<Statement>, b: seq<Statement>)
    ensures StripStatements(a + b) == StripStatements(a) + StripStatements(b)
    decreases |b|
  {
    if b == [] {
      assert a + b == a;
    } else {
      var front, last := b[..|b| - 1], b[|b| - 1];
      SplitLast(a, b);
      StripInOrder(a, front);
      StripLast(a + front, last);
      StripLast(front, last);
      Reassociated(StripStatements(a), StripStatements(front), StripStatement(last));
    }
  }

  /** The statement names the action and nothing else. */
  ghost predicate NamesOnlyTarget(s: Statement) {
    NamesTarget(s) && forall a | a in AsList(s.action) :: IsTarget(a)
  }

  /** No statement is left exactly when every one names the action and nothing else. */
  lemma {:induction false} NothingLeftIff(ss: seq<Statement>)
    ensures StripStatements(ss) == [] <==> forall s | s in ss :: NamesOnlyTarget(s)
    decreases |ss|
  {
    if ss != [] {
      var front, last := ss[..|ss| - 1], ss[|ss| - 1];
      NothingLeftIff(front);
      DroppedIff(last);
      forall s ensures s in ss <==> s in front || s == last {
        LastOf(ss, s);
      }
    }
  }

  lemma DroppedIff(s: Statement)
    ensures StripStatement(s) == [] <==> NamesOnlyTarget(s)
  {
    StripStatementExact(s);
    if NamesTarget(s) && !NamesOnlyTarget(s) {
      var a :| a in AsList(s.action) && !IsTarget(a);
      assert |StripStatement(s)| == 1;
    }
  }

  lemma StripLast(ss: seq<Statement>, s: Statement)
    ensures StripStatements(ss + [s]) == StripStatements(ss) + StripStatement(s)
  {
    assert (ss + [s])[..|ss|] == ss;
  }

  lemma StripOne(s: Statement)
    ensures StripStatements([s]) == StripStatement(s)
  {
    assert [s][..0] == [];
  }

  /** Every statement that names the action counts once. */
  lemma {:induction false} AffectedInBoth(a: seq<Statement>, b: seq<Statement>)
    ensures Affected(a + b) == Affected(a) + Affected(b)
    decreases |b|
  {
    if b == [] {
      assert a + b == a;
    } else {
      var front, last := b[..|b| - 1], b[|b| - 1];
      SplitLast(a, b);
      AffectedInBoth(a, front);
      AffectedLast(a + front, last);
      AffectedLast(front, last);
    }
  }

  lemma AffectedLast(ss: seq<Statement>, s: Statement)
    ensures Affected(ss + [s]) == Affected(ss) + Affected([s])
    ensures Affected([s]) == if NamesTarget(s) then 1 else 0
  {
    assert (ss + [s])[..|ss|] == ss;
    assert [s][..0] == [];
  }

  /** Only the statements change. */
  lemma StripKeepsVersion(doc: Document)
    ensures Stripped(doc).version == doc.version
    ensures !MentionsTarget(doc) ==> Stripped(doc) == doc
    ensures MentionsTarget(doc) ==> Stripped(doc).statement == Many(StripStatements(AsList(doc.statement)))
  {
  }

  method StripAction(doc: Document) returns (newDoc: Document, removed: nat)
    ensures newDoc == Stripped(doc)
    ensures removed == Affected(AsList(doc.statement))
    ensures removed > 0 <==> MentionsTarget(doc)
  {
    var all := AsList(doc.statement);
    var statements: seq<Statement> := [];
    removed := 0;
    for i := 0 to |all|
      invariant statements == StripStatements(all[..i])
      invariant removed == Affected(all[..i])
    {
      var stmt := all[i];
      StripNext(all, i);
      var actions := AsList(stmt.action);
      var kept := KeptActions(actions);
      KeptAll(actions);
      if |kept| == |actions| {
        statements := statements + [stmt];
        continue;
      }
      removed := removed + 1;
      if kept == [] {
        continue;
      }
      statements := statements + [stmt.(action := if |kept| > 1 then Many(kept) else One(kept[0]))];
    }
    assert all[..|all|] == all;
    AffectedNone(all);
    if removed == 0 {
      return doc, 0;
    }
    newDoc := doc.(statement := Many(statements));
  }

  // ---- What stripping means ----

  /** A stripped statement says the same about every other action. */
  lemma StripStatementSays(s: Statement, req: Request)
    requires !IsTarget(req.action)
    ensures Applies(s, req) <==> exists t :: t in StripStatement(s) && Applies(t, req)
    ensures forall t | t in StripStatement(s) :: t.effect == s.effect
  {
    var actions := AsList(s.action);
    var kept := KeptActions(actions);
    forall a | a in actions && IsTarget(a) ensures !Glob(Lower(a), Lower(req.action)) {
      TargetMatchesOnlyItself(a, req.action);
    }
    if |kept| != |actions| && kept != [] {
      var t := s.(action := if |kept| > 1 then Many(kept) else One(kept[0]));
      assert AsList(t.action) == kept;
      assert t in StripStatement(s);
    } else if kept != [] || |actions| == 0 {
      assert s in StripStatement(s);
    }
  }

  lemma {:induction false} StripStatementsMember(ss: seq<Statement>, t: Statement)
    ensures t in StripStatements(ss) <==> exists s :: s in ss && t in StripStatement(s)
    decreases |ss|
  {
    if ss != [] {
      StripStatementsMember(ss[..|ss| - 1], t);
      forall s ensures s in ss <==> s in ss[..|ss| - 1] || s == ss[|ss| - 1] {
        LastOf(ss, s);
      }
    }
  }

  /** No decision about any other action changes. */
  lemma StripKeepsDecisions(doc: Document, effect: Effect, req: Request)
    requires !IsTarget(req.action)
    ensures Says(doc, effect, req) <==> Says(Stripped(doc), effect, req)
  {
    if MentionsTarget(doc) {
      var ss := AsList(doc.statement);
      if Says(doc, effect, req) {
        var s :| s in ss && s.effect == effect && Applies(s, req);
        StripStatementSays(s, req);
        var t :| t in StripStatement(s) && Applies(t, req);
        StripStatementsMember(ss, t);
      }
      if Says(Stripped(doc), effect, req) {
        var t :| t in StripStatements(ss) && t.effect == effect && Applies(t, req);
        StripStatementsMember(ss, t);
        var s :| s in ss && t in StripStatement(s);
        StripStatementSays(s, req);
      }
    }
  }

  /** The action is gone, so stripping again changes nothing. */
  lemma StripRemovesTarget(doc: Document)
    ensures !MentionsTarget(Stripped(doc))
    ensures Stripped(Stripped(doc)) == Stripped(doc)
  {
    if MentionsTarget(doc) {
      var ss := AsList(doc.statement);
      forall t | t in StripStatements(ss) ensures !NamesTarget(t) {
        StripStatementsMember(ss, t);
        var s :| s in ss && t in StripStatement(s);
        KeptAll(AsList(s.action));
        var kept := KeptActions(AsList(s.action));
        if |kept| != |AsList(s.action)| {
          assert AsList(t.action) == kept;
        }
      }
    }
  }

  /** The statement applies without the help of a literal mention of the target action. */
  ghost predicate AppliesByWildcard(s: Statement, req: Request) {
    Applies(s, req) &&
    (s.action.Absent? || exists p :: p in AsList(s.action) && !IsTarget(p) && Glob(Lower(p), Lower(req.action)))
  }

  ghost predicate WildcardSays(doc: Document, effect: Effect, req: Request) {
    exists s :: s in AsList(doc.statement) && s.effect == effect && AppliesByWildcard(s, req)
  }

  /** A statement applies by nothing but a literal mention of the target action. */
  ghost predicate LiterallySays(doc: Document, effect: Effect, req: Request) {
    exists s :: s in AsList(doc.statement) && s.effect == effect && Applies(s, req) && !AppliesByWildcard(s, req)
  }

  lemma SaysSplit(doc: Document, effect: Effect, req: Request)
    ensures Says(doc, effect, req) <==> WildcardSays(doc, effect, req) || LiterallySays(doc, effect, req)
  {
    if s :| s in AsList(doc.statement) && s.effect == effect && Applies(s, req) {
      assert AppliesByWildcard(s, req) || !AppliesByWildcard(s, req);
    }
  }

  lemma StripStatementWildcard(s: Statement, req: Request)
    requires AppliesByWildcard(s, req)
    ensures exists t :: t in StripStatement(s) && Applies(t, req) && t.effect == s.effect
  {
    var kept := KeptActions(AsList(s.action));
    if |kept| == |AsList(s.action)| {
      assert s in StripStatement(s);
    } else {
      var t := s.(action := if |kept| > 1 then Many(kept) else One(kept[0]));
      assert AsList(t.action) == kept;
      assert t in StripStatement(s);
    }
  }

  lemma StrippedStatementWildcard(s: Statement, t: Statement, req: Request)
    requires t in StripStatement(s) && !NamesTarget(t) && Applies(t, req)
    ensures AppliesByWildcard(s, req) && s.effect == t.effect
  {
    var kept := KeptActions(AsList(s.action));
    if !t.action.Absent? {
      var p :| p in AsList(t.action) && Glob(Lower(p), Lower(req.action));
      assert p in AsList(s.action) && !IsTarget(p);
    }
  }

  /** After stripping a document speaks only through other patterns: for the target action itself that
      leaves wildcards, and a literal denial of it is lost together with the grants. */
  lemma StripLeavesWildcards(doc: Document, effect: Effect, req: Request)
    ensures Says(Stripped(doc), effect, req) <==> WildcardSays(doc, effect, req)
  {
    var ss := AsList(doc.statement);
    if WildcardSays(doc, effect, req) {
      var s :| s in ss && s.effect == effect && AppliesByWildcard(s, req);
      StripStatementWildcard(s, req);
      var t :| t in StripStatement(s) && Applies(t, req) && t.effect == effect;
      StripStatementsMember(ss, t);
    }
    if Says(Stripped(doc), effect, req) {
      StrippedSaysByWildcard(doc, effect, req);
    }
  }

  lemma StrippedSaysByWildcard(doc: Document, effect: Effect, req: Request)
    requires Says(Stripped(doc), effect, req)
    ensures WildcardSays(doc, effect, req)
  {
    StripRemovesTarget(doc);
    var ss := AsList(doc.statement);
    var t :| t in AsList(Stripped(doc).statement) && t.effect == effect && Applies(t, req);
    if MentionsTarget(doc) {
      StripStatementsMember(ss, t);
      var s :| s in ss && t in StripStatement(s);
      StrippedStatementWildcard(s, t, req);
    } else {
      KeptAll(AsList(t.action));
      assert t in StripStatement(t);
      StrippedStatementWildcard(t, t, req);
    }
  }
}
