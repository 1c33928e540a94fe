/** When replacing toolkit references again changes nothing. */
module ToolkitReruns {
  import opened ToolkitBuckets

  function Braces(s: string): nat {
    if s == "" then 0 else (if s[0] == '}' then 1 else 0) + Braces(s[1..])
  }

  lemma {:induction false} BracesOfBoth(a: string, c: string)
    ensures Braces(a + c) == Braces(a) + Braces(c)
    decreases |a|
  {
    if a == "" {
      assert a + c == c;
    } else {
      assert (a + c)[0] == a[0] && (a + c)[1..] == a[1..] + c;
      BracesOfBoth(a[1..], c);
    }
  }

  lemma {:induction false} NoBraces(s: string)
    requires forall i | 0 <= i < |s| :: s[i] != '}'
    ensures Braces(s) == 0
    decreases |s|
  {
    if s != "" {
      NoBraces(s[1..]);
    }
  }

  /** A reference has two closing braces, the second at its end. */
  lemma ReferenceBraces(m: string)
    requires IsToolkit(m)
    ensures Braces(m) == 2 && m[|m| - 1] == '}'
  {
    var front := BeforeTail(m);
    TailBraces();
    NoBraces(front);
    BracesOfBoth(front, TAIL);
    LastOfBoth(front, TAIL);
  }

  lemma BeforeTail(m: string) returns (front: string)
    requires IsToolkit(m)
    ensures m == front + TAIL && forall i | 0 <= i < |front| :: front[i] != '}'
  {
    Shortest();
    var run := WordRun(m[4..]);
    front := m[..4 + run];
    assert m[4 + run..] == TAIL && m == front + m[4 + run..];
    forall i | 0 <= i < |front| ensures front[i] != '}' {
      if i >= 4 {
        assert IsWordChar(m[4..][i - 4]) && front[i] == m[4..][i - 4];
      } else {
        HeadChar(m, i);
      }
    }
  }

  lemma HeadChar(m: string, i: nat)
    requires HEAD <= m && i < 4 == |HEAD|
    ensures m[i] != '}'
  {
    assert m[i] == HEAD[i];
    assert HEAD[0] == 'c' && HEAD[1] == 'd' && HEAD[2] == 'k' && HEAD[3] == '-';
  }

  lemma BracesOfFour(a: string, c: string, d: string, e: string)
    requires e != ""
    ensures Braces(a + c + d + e) == Braces(a) + Braces(c) + Braces(d) + Braces(e)
    ensures (a + c + d + e)[|a + c + d + e| - 1] == e[|e| - 1]
  {
    BracesOfBoth(a, c);
    BracesOfBoth(a + c, d);
    BracesOfBoth(a + c + d, e);
  }

  lemma HyphenBraces()
    ensures Braces("-") == 0
  {
    assert "-"[1..] == "";
  }

  lemma TailBraces()
    ensures Braces(TAIL) == 2 && TAIL[|TAIL| - 1] == '}'
  {
    AssetsBraces();
    AccountBraces();
    RegionBraces();
    HyphenBraces();
    BracesOfFour(ASSETS, ACCOUNT_REF, "-", REGION_REF);
  }

  lemma AssetsBraces()
    ensures Braces(ASSETS) == 0
  {
    assert |ASSETS| == 8 && ASSETS[0] == '-' && ASSETS[1] == 'a' && ASSETS[2] == 's' && ASSETS[3] == 's';
    assert ASSETS[4] == 'e' && ASSETS[5] == 't' && ASSETS[6] == 's' && ASSETS[7] == '-';
    NoBraces(ASSETS);
  }

  lemma AccountBraces()
    ensures Braces(ACCOUNT_REF) == 1
  {
    AccountChars();
    var a := ACCOUNT_REF[..16];
    assert ACCOUNT_REF == a + "}";
    NoBraces(a);
    BracesOfBoth(a, "}");
    assert "}"[1..] == "";
  }

  lemma RegionBraces()
    ensures Braces(REGION_REF) == 1 && |REGION_REF| == 14 && REGION_REF[13] == '}'
  {
    RegionChars();
    var a := REGION_REF[..13];
    assert REGION_REF == a + "}";
    NoBraces(a);
    BracesOfBoth(a, "}");
    assert "}"[1..] == "";
  }

  /** How many references are replaced. */
  function Matches(s: string): nat
    decreases |s|
  {
    if s == "" then 0
    else if MatchLength(s) > 0 then 1 + Matches(s[MatchLength(s)..])
    else Matches(s[1..])
  }

  lemma {:induction false} MatchesSome(s: string)
    requires HasToolkit(s)
    ensures Matches(s) > 0
    decreases |s|
  {
    if s != "" && MatchLength(s) == 0 {
      MatchesSome(s[1..]);
    }
  }

  lemma MatchIsToolkit(s: string)
    requires MatchLength(s) > 0
    ensures IsToolkit(s[..MatchLength(s)]) && s == s[..MatchLength(s)] + s[MatchLength(s)..]
  {
    Shortest();
    var n := MatchLength(s);
    var m, run := s[..n], WordRun(s[4..]);
    assert m[4..] == s[4..][..n - 4];
    RunOfPrefix(s[4..], n - 4);
    assert m[4 + run..] == s[4 + run..][..40];
  }

  lemma {:induction false} RunOfPrefix(s: string, n: nat)
    requires WordRun(s) <= n <= |s|
    ensures WordRun(s[..n]) == WordRun(s)
    decreases |s|
  {
    if s != "" && IsWordChar(s[0]) {
      assert s[..n][1..] == s[1..][..n - 1];
      RunOfPrefix(s[1..], n - 1);
    }
  }

  /** `n` times `k`. */
  function Times(n: nat, k: int): int {
    if n == 0 then 0 else k + Times(n - 1, k)
  }

  lemma {:induction false} TimesZero(n: nat, k: int)
    requires n > 0
    ensures (k > 0 ==> Times(n, k) > 0) && (k < 0 ==> Times(n, k) < 0)
    decreases n
  {
    if n > 1 {
      TimesZero(n - 1, k);
    }
  }

  ghost predicate Balanced(s: string, b: string) {
    Braces(SubToolkit(s, b)) - Braces(s) == Times(Matches(s), Braces(b) - 2)
  }

  lemma {:induction false} BraceBalance(s: string, b: string)
    ensures Balanced(s, b)
    decreases |s|
  {
    if s != "" {
      if MatchLength(s) > 0 {
        BraceBalance(s[MatchLength(s)..], b);
        MatchBalance(s, b);
      } else {
        BraceBalance(s[1..], b);
        LiteralBalance(s, b);
      }
    }
  }

  lemma LiteralBalance(s: string, b: string)
    requires s != "" && MatchLength(s) == 0 && Balanced(s[1..], b)
    ensures Balanced(s, b)
  {
    BracesOfBoth([s[0]], SubToolkit(s[1..], b));
    BracesOfBoth([s[0]], s[1..]);
    HeadAndRest(s);
  }

  lemma MatchBalance(s: string, b: string)
    requires s != "" && MatchLength(s) > 0 && Balanced(s[MatchLength(s)..], b)
    ensures Balanced(s, b)
  {
    var n := MatchLength(s);
    MatchBraces(s);
    ReplacedBraces(s[..n], s[n..], b, SubToolkit(s[n..], b));
  }

  lemma MatchBraces(s: string)
    requires MatchLength(s) > 0
    ensures Braces(s[..MatchLength(s)]) == 2 && s[..MatchLength(s)] + s[MatchLength(s)..] == s
  {
    MatchIsToolkit(s);
    ReferenceBraces(s[..MatchLength(s)]);
  }

  lemma ReplacedBraces(m: string, rest: string, b: string, rest': string)
    ensures Braces(b + rest') - Braces(m + rest) == Braces(b) - Braces(m) + (Braces(rest') - Braces(rest))
  {
    BracesOfBoth(m, rest);
    BracesOfBoth(b, rest');
  }

  lemma {:induction false} FirstMatch(s: string, b: string) returns (l: string, m: string, r: string)
    requires HasToolkit(s)
    ensures s == l + (m + r) && IsToolkit(m) && SubToolkit(s, b) == l + (b + SubToolkit(r, b))
    decreases |s|
  {
    if MatchLength(s) > 0 {
      MatchIsToolkit(s);
      l, m, r := "", s[..MatchLength(s)], s[MatchLength(s)..];
    } else {
      var l0;
      l0, m, r := FirstMatch(s[1..], b);
      l := [s[0]] + l0;
      Reassociate([s[0]], l0, m + r);
      Reassociate([s[0]], l0, b + SubToolkit(r, b));
    }
  }

  lemma Reassociate(a: string, c: string, d: string)
    ensures a + (c + d) == (a + c) + d
  {
  }

  lemma {:induction false} LastMatch(s: string, b: string) returns (l: string, l': string, m: string, r: string)
    requires HasToolkit(s)
    ensures s == l + (m + r) && IsToolkit(m) && SubToolkit(s, b) == l' + (b + r)
    decreases |s|
  {
    if MatchLength(s) > 0 {
      MatchIsToolkit(s);
      var first, rest := s[..MatchLength(s)], s[MatchLength(s)..];
      if HasToolkit(rest) {
        var l0, l1;
        l0, l1, m, r := LastMatch(rest, b);
        l, l' := first + l0, b + l1;
        Reassociate(first, l0, m + r);
        Reassociate(b, l1, b + r);
      } else {
        NothingToReplace(rest, b);
        l, l', m, r := "", "", first, rest;
      }
    } else {
      var l0, l1;
      l0, l1, m, r := LastMatch(s[1..], b);
      l, l' := [s[0]] + l0, [s[0]] + l1;
      Reassociate([s[0]], l0, m + r);
      Reassociate([s[0]], l1, b + r);
    }
  }

  /** A text with references that the substitution leaves alone: the name is a reference itself. */
  lemma FixedNeedsReference(t: string, b: string)
    requires HasToolkit(t) && SubToolkit(t, b) == t
    ensures IsToolkit(b)
  {
    TwoBraces(t, b);
    NameEndsInBrace(t, b);
    var l, m, r := FirstMatch(t, b);
    SameAfter(l, m + r, b + SubToolkit(r, b));
    ReferenceBraces(m);
    NameIsFirst(b, m, SubToolkit(r, b), r);
  }

  lemma TwoBraces(t: string, b: string)
    requires HasToolkit(t) && SubToolkit(t, b) == t
    ensures Braces(b) == 2
  {
    MatchesSome(t);
    BraceBalance(t, b);
    TimesZero(Matches(t), Braces(b) - 2);
  }

  lemma NameEndsInBrace(t: string, b: string)
    requires HasToolkit(t) && SubToolkit(t, b) == t && b != ""
    ensures b[|b| - 1] == '}'
  {
    var l, l', m, r := LastMatch(t, b);
    ReferenceBraces(m);
    Reassociate(l, m, r);
    Reassociate(l', b, r);
    SameBefore(l + m, l' + b, r);
    LastOfBoth(l, m);
    LastOfBoth(l', b);
  }

  lemma LastOfBoth(a: string, c: string)
    requires c != ""
    ensures (a + c)[|a + c| - 1] == c[|c| - 1]
  {
  }

  lemma SameAfter(l: string, a: string, c: string)
    requires l + a == l + c
    ensures a == c
  {
    assert (l + a)[|l|..] == a && (l + c)[|l|..] == c;
  }

  lemma SameBefore(a: string, c: string, r: string)
    requires a + r == c + r
    ensures a == c
  {
    assert (a + r)[..|a|] == a && (c + r)[..|c|] == c;
  }

  /** Both end with their second closing brace, so neither is longer. */
  lemma NameIsFirst(b: string, m: string, x: string, y: string)
    requires b + x == m + y && b != "" && m != ""
    requires Braces(b) == 2 == Braces(m) && b[|b| - 1] == '}' == m[|m| - 1]
    ensures b == m
  {
    if |b| < |m| {
      LongerHasMore(b, m, x, y);
    } else if |m| < |b| {
      LongerHasMore(m, b, y, x);
    } else {
      assert (b + x)[..|b|] == b && (m + y)[..|b|] == m;
    }
  }

  lemma LongerHasMore(a: string, c: string, x: string, y: string)
    requires a + x == c + y && |a| < |c| && c[|c| - 1] == '}'
    ensures Braces(a) < Braces(c)
  {
    var rest := c[|a|..];
    assert (a + x)[..|a|] == a && (c + y)[..|a|] == c[..|a|];
    assert c == a + rest && rest[|rest| - 1] == '}';
    BracesOfBoth(a, rest);
    BracesOfBoth(rest[..|rest| - 1], "}");
    assert rest == rest[..|rest| - 1] + "}" && "}"[1..] == "";
  }

  /** A second run changes a text, exactly when the first left a reference in it and the name is none. */
  lemma SettledIff(s: string, b: string)
    ensures SubToolkit(SubToolkit(s, b), b) == SubToolkit(s, b) <==> !HasToolkit(SubToolkit(s, b)) || IsToolkit(b)
  {
    var t := SubToolkit(s, b);
    if IsToolkit(b) {
      SelfSettles(s, b);
    } else if HasToolkit(t) {
      if SubToolkit(t, b) == t {
        FixedNeedsReference(t, b);
      }
    } else {
      NothingToReplace(t, b);
    }
  }

  ghost predicate Idempotent(b: string) {
    forall s :: SubToolkit(SubToolkit(s, b), b) == SubToolkit(s, b)
  }

  /** The substitution is idempotent on all texts, if and only if the name is inert, or is a whole reference. */
  lemma IdempotentIff(b: string)
    ensures Idempotent(b) <==> Inert(b) || IsToolkit(b)
  {
    NoToolkitLeftIff(b);
    if Inert(b) || IsToolkit(b) {
      forall s ensures SubToolkit(SubToolkit(s, b), b) == SubToolkit(s, b) {
        SettledIff(s, b);
      }
    } else {
      var s :| HasToolkit(SubToolkit(s, b));
      SettledIff(s, b);
    }
  }
}
