/** `${VAR}` placeholders in stack names: validation and substitution. */
module NameVariables {
  import opened Results

  predicate IsVarChar(c: char) {
    'A' <= c <= 'Z' || c == '_'
  }

  /** Length of the longest prefix of variable characters. */
  function Run(s: string): (n: nat)
    ensures n <= |s| && (forall i | 0 <= i < n :: IsVarChar(s[i])) && (n < |s| ==> !IsVarChar(s[n]))
  {
    if s == "" || !IsVarChar(s[0]) then 0 else 1 + Run(s[1..])
  }

  /** Length of the placeholder that `s` starts with, 0 when there is none. */
  function PlaceholderLength(s: string): (n: nat)
    ensures n <= |s|
    ensures n > 0 ==> n > 3 && s[0] == '$' && s[1] == '{' && s[n - 1] == '}'
  {
    if |s| < 2 || s[0] != '$' || s[1] != '{' then 0
    else
      var r := Run(s[2..]);
      if r > 0 && r + 2 < |s| && s[r + 2] == '}' then r + 3 else 0
  }

  function VariableOf(s: string): string
    requires PlaceholderLength(s) > 0
  {
    s[2..PlaceholderLength(s) - 1]
  }

  /** `has_name_variables`. */
  predicate HasVariables(s: string) {
    PlaceholderLength(s) > 0 || (s != "" && HasVariables(s[1..]))
  }

  /** The variables in the order the scan finds them, without overlap. */
  function VariablesIn(s: string): seq<string>
    decreases |s|
  {
    if s == "" then []
    else if PlaceholderLength(s) > 0 then [VariableOf(s)] + VariablesIn(s[PlaceholderLength(s)..])
    else VariablesIn(s[1..])
  }

  const SUPPORTED_VARIABLES := {"APP_REGION"}

  /** `_validate_name_variables`: the first unsupported variable is the error. */
  function ValidateName(name: string): (r: Result<(), string>) {
    FirstOutside(VariablesIn(name), SUPPORTED_VARIABLES)
  }

  function FirstOutside(vars: seq<string>, allowed: set<string>): (r: Result<(), string>)
    ensures r.Success? <==> forall v | v in vars :: v in allowed
  {
    if vars == [] then Success(())
    else if vars[0] !in allowed then Failure(vars[0])
    else FirstOutside(vars[1..], allowed)
  }

  /** `resolve_stack_name`: fails with the first variable that has no value. */
  function ResolveName(name: string, values: map<string, string>): (r: Result<string, string>)
    decreases |name|
  {
    if name == "" then Success("")
    else if PlaceholderLength(name) > 0 then
      var v := VariableOf(name);
      if v !in values then Failure(v)
      else
        var rest :- ResolveName(name[PlaceholderLength(name)..], values);
        Success(values[v] + rest)
    else
      var rest :- ResolveName(name[1..], values);
      Success([name[0]] + rest)
  }

  /** The CloudFormation name of a stack in a region. */
  function CfStackName(name: string, appRegion: string): Result<string, string> {
    ResolveName(name, map["APP_REGION" := appRegion])
  }

  // ---- Resolution is total on accepted names ----

  lemma {:induction false} ResolvesIff(name: string, values: map<string, string>)
    ensures ResolveName(name, values).Success? <==> forall v | v in VariablesIn(name) :: v in values
    ensures ResolveName(name, values).Failure? ==>
              FirstOutside(VariablesIn(name), values.Keys) == Failure(ResolveName(name, values).error)
    decreases |name|
  {
    if name != "" {
      var n := PlaceholderLength(name);
      ResolvesIff(if n > 0 then name[n..] else name[1..], values);
    }
  }

  /** Every accepted name resolves once the region is supplied. */
  lemma AcceptedNamesResolve(name: string, appRegion: string)
    requires ValidateName(name).Success?
    ensures CfStackName(name, appRegion).Success?
  {
    ResolvesIff(name, map["APP_REGION" := appRegion]);
  }

  // ---- The scan, text by text ----

  /** A placeholder is `${`, upper-case letters and underscores, at least one, and `}`. */
  lemma PlaceholderIff(s: string, w: string)
    ensures PlaceholderLength(s) == |w| + 3 && s[2..|w| + 2] == w <==>
              w != "" && (forall i | 0 <= i < |w| :: 'A' <= w[i] <= 'Z' || w[i] == '_') && "${" + w + "}" <= s
  {
    if "${" + w + "}" <= s && w != "" && forall i | 0 <= i < |w| :: IsVarChar(w[i]) {
      assert s == "${" + w + "}" + s[|w| + 3..];
      PlaceholderOf(w, s[|w| + 3..]);
    }
    if PlaceholderLength(s) == |w| + 3 && s[2..|w| + 2] == w {
      PlaceholderText(s, w);
    }
  }

  lemma PlaceholderText(s: string, w: string)
    requires PlaceholderLength(s) == |w| + 3 && s[2..|w| + 2] == w
    ensures w != "" && (forall i | 0 <= i < |w| :: IsVarChar(w[i])) && "${" + w + "}" <= s
  {
    assert Run(s[2..]) == |w| && w == s[2..][..|w|];
    assert "${" + w + "}" == s[..|w| + 3];
  }

  lemma {:induction false} HasVariablesIff(s: string)
    ensures HasVariables(s) <==> exists i :: 0 <= i < |s| && PlaceholderLength(s[i..]) > 0
    decreases |s|
  {
    if s != "" {
      assert s[0..] == s;
      HasVariablesIff(s[1..]);
      if i :| 0 <= i < |s[1..]| && PlaceholderLength(s[1..][i..]) > 0 {
        assert s[1..][i..] == s[i + 1..];
      }
      if i :| 1 <= i < |s| && PlaceholderLength(s[i..]) > 0 {
        assert s[1..][i - 1..] == s[i..];
      }
    }
  }

  /** No placeholder starts within `u`, whatever is in it. */
  ghost predicate LiteralBefore(u: string, rest: string) {
    forall i | 0 <= i < |u| :: PlaceholderLength((u + rest)[i..]) == 0
  }

  /** The resolved text with something in front. */
  function Prefixed(u: string, r: Result<string, string>): Result<string, string> {
    match r
    case Success(text) => Success(u + text)
    case Failure(v) => Failure(v)
  }

  lemma ResolveCharacter(s: string, values: map<string, string>)
    requires s != "" && PlaceholderLength(s) == 0
    ensures ResolveName(s, values) == Prefixed([s[0]], ResolveName(s[1..], values))
  {
  }

  lemma PrefixedTwice(c: string, u: string, r: Result<string, string>)
    ensures Prefixed(c, Prefixed(u, r)) == Prefixed(c + u, r)
  {
    if r.Success? {
      assert c + (u + r.value) == (c + u) + r.value;
    }
  }

  /** Text in front of the next placeholder is copied. */
  lemma {:induction false} ResolveLiteral(u: string, rest: string, values: map<string, string>)
    requires LiteralBefore(u, rest)
    ensures VariablesIn(u + rest) == VariablesIn(rest)
    ensures ResolveName(u + rest, values) == Prefixed(u, ResolveName(rest, values))
    decreases |u|
  {
    if u == "" {
      assert u + rest == rest;
      assert forall r: string :: u + r == r;
    } else {
      LiteralInTail(u, rest);
      ResolveLiteral(u[1..], rest, values);
      ResolveCharacter(u + rest, values);
      PrefixedTwice([u[0]], u[1..], ResolveName(rest, values));
      assert [u[0]] + u[1..] == u;
    }
  }

  lemma LiteralInTail(u: string, rest: string)
    requires u != "" && LiteralBefore(u, rest)
    ensures LiteralBefore(u[1..], rest) && PlaceholderLength(u + rest) == 0
    ensures (u + rest)[0] == u[0] && (u + rest)[1..] == u[1..] + rest
  {
    assert (u + rest)[0..] == u + rest && (u + rest)[1..] == u[1..] + rest;
    forall i | 0 <= i < |u[1..]| ensures PlaceholderLength((u[1..] + rest)[i..]) == 0 {
      assert (u[1..] + rest)[i..] == (u + rest)[i + 1..];
    }
  }

  lemma TextWithoutDollar(u: string, rest: string)
    requires '$' !in u
    ensures LiteralBefore(u, rest)
  {
    forall i | 0 <= i < |u| ensures PlaceholderLength((u + rest)[i..]) == 0 {
      assert (u + rest)[i..][0] == u[i];
    }
  }

  /** A placeholder is replaced by its value and the scan goes on behind it; without a value it is the error. */
  lemma ResolvePlaceholder(w: string, rest: string, values: map<string, string>)
    requires w != "" && forall i | 0 <= i < |w| :: 'A' <= w[i] <= 'Z' || w[i] == '_'
    ensures VariablesIn("${" + w + "}" + rest) == [w] + VariablesIn(rest)
    ensures ResolveName("${" + w + "}" + rest, values) ==
            if w !in values then Failure(w) else Prefixed(values[w], ResolveName(rest, values))
  {
    var s := "${" + w + "}" + rest;
    PlaceholderOf(w, rest);
    assert s[|w| + 3..] == rest;
  }

  /** The names that pass the validation. */
  lemma ValidatedIff(name: string)
    ensures ValidateName(name).Success? <==> forall v | v in VariablesIn(name) :: v == "APP_REGION"
  {
  }

  // ---- No placeholder is left ----

  predicate IsBrace(c: char) {
    c == '$' || c == '{' || c == '}'
  }

  ghost predicate Clean(value: string) {
    forall c | c in value :: !IsBrace(c)
  }

  /** Some character could not be part of a variable name. */
  ghost predicate Foreign(value: string) {
    exists i :: 0 <= i < |value| && !IsVarChar(value[i])
  }

  ghost predicate SafeValues(values: map<string, string>) {
    forall v | v in values :: Clean(values[v]) && Foreign(values[v])
  }

  /** A substituted value in front is not a run of variable characters closed by a brace. */
  lemma ValueNeverCloses(value: string, rest: string, k: nat)
    requires Clean(value) && Foreign(value) && k < |value + rest|
    ensures (value + rest)[k] != '}' || exists i :: 0 <= i < k && !IsVarChar((value + rest)[i])
  {
    var j :| 0 <= j < |value| && !IsVarChar(value[j]);
    if j < k {
      assert (value + rest)[j] == value[j];
    } else {
      assert (value + rest)[k] == value[k] && value[k] in value;
    }
  }

  /** Variable characters closed by a brace in the result were there literally in the name. */
  lemma {:induction false} ClosingWasLiteral(name: string, values: map<string, string>, k: nat)
    requires SafeValues(values) && ResolveName(name, values).Success?
    requires var r := ResolveName(name, values).value;
             k < |r| && r[k] == '}' && forall i | 0 <= i < k :: IsVarChar(r[i])
    ensures k < |name| && name[..k + 1] == ResolveName(name, values).value[..k + 1]
    decreases |name|
  {
    var r := ResolveName(name, values).value;
    var n := PlaceholderLength(name);
    if n > 0 {
      ValueNeverCloses(values[VariableOf(name)], ResolveName(name[n..], values).value, k);
    } else if k > 0 {
      assert r[1..] == ResolveName(name[1..], values).value;
      ClosingWasLiteral(name[1..], values, k - 1);
      TakeOneMore(r, k);
      TakeOneMore(name, k);
    }
  }

  lemma TakeOneMore(s: string, k: nat)
    requires k < |s|
    ensures s[..k + 1] == [s[0]] + s[1..][..k]
  {
  }

  /** The run ends where the same characters end it elsewhere. */
  lemma RunIs(s: string, t: string, k: nat)
    requires k < |s| && k < |t| && s[..k + 1] == t[..k + 1]
    requires t[k] == '}' && forall i | 0 <= i < k :: IsVarChar(t[i])
    ensures Run(s) == k && s[k] == '}'
  {
    forall i | 0 <= i <= k ensures s[i] == t[i] {
      assert s[..k + 1][i] == t[..k + 1][i];
    }
  }

  /** A brace at the start of the result was there literally in the name. */
  lemma BraceWasLiteral(name: string, values: map<string, string>)
    requires SafeValues(values) && ResolveName(name, values).Success?
    requires var r := ResolveName(name, values).value; r != "" && IsBrace(r[0])
    ensures name != "" && PlaceholderLength(name) == 0 && ResolveName(name[1..], values).Success?
    ensures ResolveName(name, values).value == [name[0]] + ResolveName(name[1..], values).value
  {
  }

  /** The result does not start with a placeholder: one that did would have been there in the name. */
  lemma NoPlaceholderInFront(name: string, values: map<string, string>)
    requires SafeValues(values) && ResolveName(name, values).Success?
    ensures PlaceholderLength(ResolveName(name, values).value) == 0
  {
    var r := ResolveName(name, values).value;
    if PlaceholderLength(r) > 0 {
      BraceWasLiteral(name, values);
      assert name[1..][1..] == name[2..];
      BraceWasLiteral(name[1..], values);
      var tail := ResolveName(name[1..][1..], values).value;
      var k := Run(r[2..]);
      assert r[2..] == tail;
      ClosingWasLiteral(name[1..][1..], values, k);
      RunIs(name[1..][1..], tail, k);
    }
  }

  lemma {:induction false} NoPlaceholderLeft(name: string, values: map<string, string>)
    requires SafeValues(values) && ResolveName(name, values).Success?
    ensures !HasVariables(ResolveName(name, values).value)
    decreases |name|
  {
    var r := ResolveName(name, values).value;
    var n := PlaceholderLength(name);
    if n > 0 {
      var value := values[VariableOf(name)];
      NoPlaceholderLeft(name[n..], values);
      ValueInFront(value, ResolveName(name[n..], values).value);
    } else if name != "" {
      NoPlaceholderLeft(name[1..], values);
      assert r[1..] == ResolveName(name[1..], values).value;
      NoPlaceholderInFront(name, values);
    }
  }

  lemma {:induction false} ValueInFront(value: string, rest: string)
    requires Clean(value) && !HasVariables(rest)
    ensures !HasVariables(value + rest)
    decreases |value|
  {
    if value == "" {
      assert value + rest == rest;
    } else {
      assert value[0] in value;
      assert (value + rest)[1..] == value[1..] + rest;
      ValueInFront(value[1..], rest);
    }
  }

  // ---- Exactly which clean values are safe ----

  lemma {:induction false} RunOfVarChars(w: string, rest: string)
    requires forall i | 0 <= i < |w| :: IsVarChar(w[i])
    requires rest == "" || !IsVarChar(rest[0])
    ensures Run(w + rest) == |w|
    decreases |w|
  {
    if w == "" {
      assert w + rest == rest;
    } else {
      assert (w + rest)[1..] == w[1..] + rest;
      RunOfVarChars(w[1..], rest);
    }
  }

  lemma PlaceholderOf(w: string, rest: string)
    requires w != "" && forall i | 0 <= i < |w| :: IsVarChar(w[i])
    ensures PlaceholderLength("${" + w + "}" + rest) == |w| + 3
    ensures VariableOf("${" + w + "}" + rest) == w
  {
    var s := "${" + w + "}" + rest;
    RunOfVarChars(w, "}" + rest);
    assert s[2..] == w + ("}" + rest);
  }

  const INNER := "${" + "APP_REGION" + "}" + "A}"
  const NESTED := "${" + INNER

  lemma InnerName(value: string)
    ensures VariablesIn(INNER) == ["APP_REGION"]
    ensures ResolveName(INNER, map["APP_REGION" := value]) == Success(value + "A}")
  {
    PlaceholderOf("APP_REGION", "A}");
    assert INNER[|"APP_REGION"| + 3..] == "A}";
    assert "A}"[1..] == "}" && "}"[1..] == "";
    assert VariablesIn("}") == [] && VariablesIn("A}") == [];
    assert !HasVariables("A}");
    PlainNamesKept("A}", map["APP_REGION" := value]);
  }

  /** An opener in front of another `$` is no placeholder: it is copied. */
  lemma OpenerStays(rest: string, values: map<string, string>)
    requires rest != "" && rest[0] == '$' && ResolveName(rest, values).Success?
    ensures VariablesIn("${" + rest) == VariablesIn(rest)
    ensures ResolveName("${" + rest, values) == Success("${" + ResolveName(rest, values).value)
  {
    var s := "${" + rest;
    assert s[1..] == "{" + rest && s[2..] == rest && s[1..][1..] == rest;
    assert PlaceholderLength(s) == 0 && PlaceholderLength(s[1..]) == 0;
    var r := ResolveName(rest, values).value;
    assert ResolveName(s[1..], values) == Success("{" + r);
    assert ['$'] + ("{" + r) == "${" + r;
  }

  lemma NestedName(value: string)
    ensures ValidateName(NESTED).Success? && CfStackName(NESTED, value) == Success("${" + value + "A}")
  {
    InnerName(value);
    OpenerStays(INNER, map["APP_REGION" := value]);
    assert "${" + (value + "A}") == "${" + value + "A}";
  }

  /** Among region values without `$`, `{` and `}`, substitution leaves no placeholder in any accepted
      name if and only if the value has a character that no variable name can have. */
  lemma ResolvedNamesCleanIff(value: string)
    requires forall c | c in value :: c != '$' && c != '{' && c != '}'
    ensures (forall name | ValidateName(name).Success? ::
               CfStackName(name, value).Success? && !HasVariables(CfStackName(name, value).value))
            <==> exists i :: 0 <= i < |value| && !('A' <= value[i] <= 'Z' || value[i] == '_')
  {
    if Foreign(value) {
      forall name | ValidateName(name).Success?
        ensures CfStackName(name, value).Success? && !HasVariables(CfStackName(name, value).value)
      {
        AcceptedNamesResolve(name, value);
        NoPlaceholderLeft(name, map["APP_REGION" := value]);
      }
    } else {
      NestedName(value);
      PlaceholderOf(value + "A", "");
      assert "${" + value + "A}" == "${" + (value + "A") + "}" + "";
    }
  }

  /** Names without placeholders resolve to themselves. */
  lemma {:induction false} PlainNamesKept(name: string, values: map<string, string>)
    requires !HasVariables(name)
    ensures ResolveName(name, values) == Success(name)
    decreases |name|
  {
    if name != "" {
      PlainNamesKept(name[1..], values);
      assert name == [name[0]] + name[1..];
    }
  }
}
