/** References to the CDK toolkit bucket in substitutions, and replacing them by a bucket name. */
module ToolkitBuckets {

  // ---- CDK_BUCKET_PATTERN ----

  predicate IsWordChar(c: char) {
    'a' <= c <= 'z' || 'A' <= c <= 'Z' || '0' <= c <= '9' || c == '_'
  }

  const HEAD := "cdk-"
  const ACCOUNT_REF := "${AWS::AccountId}"
  const REGION_REF := "${AWS::Region}"
  const ASSETS := "-assets-"
  const TAIL := ASSETS + ACCOUNT_REF + "-" + REGION_REF

  /** Length of the longest prefix of word characters. */
  function WordRun(s: string): (n: nat)
    ensures n <= |s| && (forall i | 0 <= i < n :: IsWordChar(s[i])) && (n < |s| ==> !IsWordChar(s[n]))
  {
    if s == "" || !IsWordChar(s[0]) then 0 else 1 + WordRun(s[1..])
  }

  /** Length of the reference that `s` starts with, 0 when there is none. The tail does not start with a word
      character, so the run is what `\w+` matches. */
  function MatchLength(s: string): (n: nat)
    ensures n <= |s|
  {
    if !(HEAD <= s) then 0
    else
      var run := WordRun(s[|HEAD|..]);
      if run > 0 && TAIL <= s[|HEAD| + run..] then |HEAD| + run + |TAIL| else 0
  }

  predicate HasToolkit(s: string) {
    MatchLength(s) > 0 || (s != "" && HasToolkit(s[1..]))
  }

  /** `CDK_BUCKET_PATTERN.sub(bucket, s)`. */
  function SubToolkit(s: string, bucket: string): string
    decreases |s|
  {
    if s == "" then ""
    else if MatchLength(s) > 0 then bucket + SubToolkit(s[MatchLength(s)..], bucket)
    else [s[0]] + SubToolkit(s[1..], bucket)
  }

  /** A whole reference. */
  predicate IsToolkit(s: string) {
    s != "" && MatchLength(s) == |s|
  }

  lemma {:induction false} WordRunOf(w: string, rest: string)
    requires (forall i | 0 <= i < |w| :: IsWordChar(w[i])) && (rest != "" ==> !IsWordChar(rest[0]))
    ensures WordRun(w + rest) == |w|
    decreases |w|
  {
    if w == "" {
      assert w + rest == rest;
    } else {
      assert (w + rest)[0] == w[0] && (w + rest)[1..] == w[1..] + rest;
      WordRunOf(w[1..], rest);
    }
  }

  /** `w` is what `\w+` matches. */
  ghost predicate IsWord(w: string) {
    w != "" && forall i | 0 <= i < |w| ::
      'a' <= w[i] <= 'z' || 'A' <= w[i] <= 'Z' || '0' <= w[i] <= '9' || w[i] == '_'
  }

  lemma TailText()
    ensures TAIL == "-assets-${AWS::AccountId}-${AWS::Region}"
  {
  }

  /** A text starts with a reference iff it starts with `cdk-`, a word and the tail, and then that is the
      reference. */
  lemma MatchIff(s: string)
    ensures MatchLength(s) > 0 <==> exists w :: IsWord(w) && StartsWith(s, w)
    ensures forall w | IsWord(w) && StartsWith(s, w) ::
              MatchLength(s) == |"cdk-" + w + "-assets-${AWS::AccountId}-${AWS::Region}"|
  {
    TailText();
    if MatchLength(s) > 0 {
      var run := WordRun(s[4..]);
      var w := s[4..][..run];
      assert s[4..][run..] == s[4 + run..];
      assert s == HEAD + w + TAIL + s[MatchLength(s)..];
      assert IsWord(w) && StartsWith(s, w);
    }
    forall w | IsWord(w) && StartsWith(s, w)
      ensures MatchLength(s) == |"cdk-" + w + "-assets-${AWS::AccountId}-${AWS::Region}"| > 0
    {
      StartsWithMatch(s, w);
    }
  }

  ghost predicate StartsWith(s: string, w: string) {
    "cdk-" + w + "-assets-${AWS::AccountId}-${AWS::Region}" <= s
  }

  lemma StartsWithMatch(s: string, w: string)
    requires IsWord(w) && HEAD + w + TAIL <= s
    ensures MatchLength(s) == |HEAD| + |w| + |TAIL|
  {
    var rest := s[|HEAD| + |w|..];
    assert s[|HEAD|..] == w + rest;
    assert TAIL <= rest && TAIL[0] == '-';
    WordRunOf(w, rest);
  }

  // ---- Matching character by character ----

  /** A reference with the shortest word. A state is the number of its characters that are matched; in
      state `IN_WORD` the word may go on. */
  const SHORTEST := HEAD + "x" + TAIL
  const IN_WORD: nat := 5
  const DONE: nat := 45

  lemma Shortest()
    ensures |HEAD| == 4 && |TAIL| == 40 && |SHORTEST| == DONE
    ensures SHORTEST[..4] == HEAD && SHORTEST[4] == 'x'
    ensures SHORTEST[IN_WORD..] == TAIL && SHORTEST[IN_WORD] == TAIL[0] == '-'
  {
    assert TAIL[0] == ASSETS[0] == '-';
    assert |ACCOUNT_REF| == 17 && |REGION_REF| == 14;
  }

  /** One character; -1 when the match fails. */
  function Next(q: nat, c: char): (r: int)
    requires q < DONE
    ensures -1 <= r <= DONE && r != 0 && (r > 0 ==> r >= q)
  {
    Shortest();
    if (q == IN_WORD || q == IN_WORD - 1) && IsWordChar(c) then IN_WORD
    else if q != IN_WORD - 1 && c == SHORTEST[q] then q + 1
    else -1
  }

  /** The match that is in state `q` is completed by a prefix of `s`. */
  predicate Accepts(q: nat, s: string)
    requires q < DONE
    decreases |s|
  {
    s != "" && (var r := Next(q, s[0]); r == DONE || (0 < r < DONE && Accepts(r, s[1..])))
  }

  /** The match that is in state `q` fails within `s`, whatever follows. */
  predicate Dies(q: nat, s: string)
    requires q < DONE
    decreases |s|
  {
    s != "" && (var r := Next(q, s[0]); r == -1 || (0 < r < DONE && Dies(r, s[1..])))
  }

  /** In the tail the rest is literal. */
  lemma {:induction false} AcceptsTail(q: nat, s: string)
    requires IN_WORD < q < DONE
    ensures Accepts(q, s) <==> SHORTEST[q..] <= s
    decreases |s|
  {
    Shortest();
    StartsAt(SHORTEST, q, s);
    if s != "" && s[0] == SHORTEST[q] && q + 1 < DONE {
      AcceptsTail(q + 1, s[1..]);
    }
  }

  lemma StartsAt(p: string, q: nat, s: string)
    requires q < |p|
    ensures p[q..] <= s <==> s != "" && s[0] == p[q] && p[q + 1..] <= s[1..]
  {
    assert p[q..] == [p[q]] + p[q + 1..];
    if s != "" && s[0] == p[q] && p[q + 1..] <= s[1..] {
      assert s == [s[0]] + s[1..];
    }
  }

  lemma {:induction false} AcceptsWord(s: string)
    ensures Accepts(IN_WORD, s) <==> TAIL <= s[WordRun(s)..]
    decreases |s|
  {
    Shortest();
    if s != "" {
      if IsWordChar(s[0]) {
        AcceptsWord(s[1..]);
        assert s[1..][WordRun(s[1..])..] == s[WordRun(s)..];
      } else {
        assert s[0..] == s;
        if s[0] == '-' {
          AcceptsTail(IN_WORD + 1, s[1..]);
          assert TAIL == ['-'] + SHORTEST[IN_WORD + 1..];
          assert TAIL <= s <==> SHORTEST[IN_WORD + 1..] <= s[1..];
        }
      }
    }
  }

  lemma AcceptsAfterHead(s: string)
    ensures Accepts(IN_WORD - 1, s) <==> WordRun(s) > 0 && TAIL <= s[WordRun(s)..]
  {
    if s != "" && IsWordChar(s[0]) {
      AcceptsWord(s[1..]);
      assert s[1..][WordRun(s[1..])..] == s[WordRun(s)..];
    }
  }

  lemma {:induction false} AcceptsHead(q: nat, s: string)
    requires q <= IN_WORD - 1
    ensures Accepts(q, s) <==>
              HEAD[q..] <= s && (var rest := s[4 - q..]; WordRun(rest) > 0 && TAIL <= rest[WordRun(rest)..])
    decreases IN_WORD - q
  {
    Shortest();
    if q == IN_WORD - 1 {
      AcceptsAfterHead(s);
      assert s[0..] == s && HEAD[q..] == "";
    } else {
      assert HEAD[q] == SHORTEST[q] && HEAD[q..] == [HEAD[q]] + HEAD[q + 1..];
      if s != "" && s[0] == HEAD[q] {
        AcceptsHead(q + 1, s[1..]);
        assert HEAD[q..] <= s <==> HEAD[q + 1..] <= s[1..];
        if HEAD[q..] <= s {
          assert s[1..][4 - (q + 1)..] == s[4 - q..];
        }
      }
    }
  }

  /** Matching character by character finds the same references. */
  lemma AcceptsIffMatch(s: string)
    ensures Accepts(0, s) <==> MatchLength(s) > 0
  {
    AcceptsHead(0, s);
    assert HEAD[0..] == HEAD;
  }

  // ---- When a bucket name never becomes part of a reference ----

  /** No reference can run into the name, nor start in it: each attempt fails within the name. */
  predicate Inert(bucket: string) {
    && (forall q | 0 < q < DONE :: Dies(q, bucket))
    && (forall j | 0 <= j < |bucket| :: Dies(0, bucket[j..]))
  }

  lemma {:induction false} DiesBefore(q: nat, b: string, z: string)
    requires q < DONE && Dies(q, b)
    ensures !Accepts(q, b + z)
    decreases |b|
  {
    assert (b + z)[0] == b[0] && (b + z)[1..] == b[1..] + z;
    var r := Next(q, b[0]);
    if 0 < r < DONE {
      DiesBefore(r, b[1..], z);
    }
  }

  /** A reference that is under way cannot be completed across the name. */
  ghost predicate Blocks(b: string) {
    forall q, z | 0 < q < DONE :: !Accepts(q, b + z)
  }

  /** Substituting opens no new way to complete a reference that is under way. */
  lemma {:induction false} SubKeepsFailing(q: nat, s: string, b: string)
    requires 0 < q < DONE && Blocks(b) && Accepts(q, SubToolkit(s, b))
    ensures Accepts(q, s)
    decreases |s|
  {
    if MatchLength(s) == 0 {
      var rest := SubToolkit(s[1..], b);
      assert ([s[0]] + rest)[1..] == rest;
      var r := Next(q, s[0]);
      if r < DONE {
        SubKeepsFailing(r, s[1..], b);
      }
    }
  }

  lemma SubLiteral(s: string, b: string)
    requires s != "" && MatchLength(s) == 0 && Blocks(b)
    ensures MatchLength([s[0]] + SubToolkit(s[1..], b)) == 0
  {
    var rest := SubToolkit(s[1..], b);
    AcceptsIffMatch(s);
    AcceptsIffMatch([s[0]] + rest);
    assert ([s[0]] + rest)[1..] == rest;
    if MatchLength([s[0]] + rest) > 0 {
      SubKeepsFailing(Next(0, s[0]), s[1..], b);
    }
  }

  lemma {:induction false} NameInFront(b: string, rest: string)
    requires (forall j | 0 <= j < |b| :: Dies(0, b[j..])) && !HasToolkit(rest)
    ensures !HasToolkit(b + rest)
    decreases |b|
  {
    if b == "" {
      assert b + rest == rest;
    } else {
      assert b[0..] == b;
      DiesBefore(0, b, rest);
      AcceptsIffMatch(b + rest);
      assert (b + rest)[1..] == b[1..] + rest;
      forall j | 0 <= j < |b[1..]| ensures Dies(0, b[1..][j..]) {
        assert b[1..][j..] == b[j + 1..];
      }
      NameInFront(b[1..], rest);
    }
  }

  lemma InertBlocks(b: string)
    requires Inert(b)
    ensures Blocks(b)
  {
    forall q, z | 0 < q < DONE ensures !Accepts(q, b + z) {
      DiesBefore(q, b, z);
    }
  }

  /** With an inert name no reference is left in any text. */
  lemma {:induction false} NoToolkitLeft(s: string, b: string)
    requires Inert(b)
    ensures !HasToolkit(SubToolkit(s, b))
    decreases |s|
  {
    if s != "" {
      if MatchLength(s) > 0 {
        NoToolkitLeft(s[MatchLength(s)..], b);
        NameInFront(b, SubToolkit(s[MatchLength(s)..], b));
      } else {
        NoToolkitLeft(s[1..], b);
        InertBlocks(b);
        SubLiteral(s, b);
        assert SubToolkit(s, b)[1..] == SubToolkit(s[1..], b);
      }
    }
  }

  lemma {:induction false} NothingToReplace(s: string, b: string)
    requires !HasToolkit(s)
    ensures SubToolkit(s, b) == s
    decreases |s|
  {
    if s != "" {
      NothingToReplace(s[1..], b);
      assert s == [s[0]] + s[1..];
    }
  }

  // ---- A name that is not inert leaves a reference in some text ----

  lemma AccountChars()
    ensures |ACCOUNT_REF| == 17
    ensures ACCOUNT_REF[0] == '$' && ACCOUNT_REF[1] == '{' && ACCOUNT_REF[2] == 'A' && ACCOUNT_REF[3] == 'W'
    ensures ACCOUNT_REF[4] == 'S' && ACCOUNT_REF[5] == ':' && ACCOUNT_REF[6] == ':' && ACCOUNT_REF[7] == 'A'
    ensures ACCOUNT_REF[8] == 'c' && ACCOUNT_REF[9] == 'c' && ACCOUNT_REF[10] == 'o' && ACCOUNT_REF[11] == 'u'
    ensures ACCOUNT_REF[12] == 'n' && ACCOUNT_REF[13] == 't' && ACCOUNT_REF[14] == 'I'
    ensures ACCOUNT_REF[15] == 'd' && ACCOUNT_REF[16] == '}'
  {
  }

  lemma RegionChars()
    ensures |REGION_REF| == 14
    ensures REGION_REF[0] == '$' && REGION_REF[1] == '{' && REGION_REF[2] == 'A' && REGION_REF[3] == 'W'
    ensures REGION_REF[4] == 'S' && REGION_REF[5] == ':' && REGION_REF[6] == ':' && REGION_REF[7] == 'R'
    ensures REGION_REF[8] == 'e' && REGION_REF[9] == 'g' && REGION_REF[10] == 'i' && REGION_REF[11] == 'o'
    ensures REGION_REF[12] == 'n' && REGION_REF[13] == '}'
  {
  }

  lemma ShortestChars()
    ensures SHORTEST[0] == 'c' && SHORTEST[1] == 'd' && SHORTEST[2] == 'k' && SHORTEST[3] == '-'
    ensures SHORTEST[4] == 'x' && SHORTEST[5] == '-' && SHORTEST[6] == 'a' && SHORTEST[7] == 's'
    ensures SHORTEST[8] == 's' && SHORTEST[9] == 'e' && SHORTEST[10] == 't' && SHORTEST[11] == 's'
    ensures SHORTEST[12] == '-' && SHORTEST[13] == '$' && SHORTEST[14] == '{' && SHORTEST[15] == 'A'
    ensures SHORTEST[16] == 'W' && SHORTEST[17] == 'S' && SHORTEST[18] == ':' && SHORTEST[19] == ':'
    ensures SHORTEST[20] == 'A' && SHORTEST[21] == 'c' && SHORTEST[22] == 'c' && SHORTEST[23] == 'o'
    ensures SHORTEST[24] == 'u' && SHORTEST[25] == 'n' && SHORTEST[26] == 't' && SHORTEST[27] == 'I'
    ensures SHORTEST[28] == 'd' && SHORTEST[29] == '}' && SHORTEST[30] == '-' && SHORTEST[31] == '$'
    ensures SHORTEST[32] == '{' && SHORTEST[33] == 'A' && SHORTEST[34] == 'W' && SHORTEST[35] == 'S'
    ensures SHORTEST[36] == ':' && SHORTEST[37] == ':' && SHORTEST[38] == 'R' && SHORTEST[39] == 'e'
    ensures SHORTEST[40] == 'g' && SHORTEST[41] == 'i' && SHORTEST[42] == 'o' && SHORTEST[43] == 'n'
    ensures SHORTEST[44] == '}'
  {
    AccountChars();
    RegionChars();
    assert |HEAD| == 4 && |ASSETS| == 8;
    forall i | 0 <= i < 8 ensures SHORTEST[i + 5] == ASSETS[i] {
    }
    forall i | 0 <= i < 17 ensures SHORTEST[i + 13] == ACCOUNT_REF[i] {
    }
    forall i | 0 <= i < 14 ensures SHORTEST[i + 31] == REGION_REF[i] {
    }
  }

  lemma {:induction false} Completes(q: nat)
    requires q < DONE
    ensures Accepts(q, SHORTEST[q..])
    decreases DONE - q
  {
    Shortest();
    var s := SHORTEST[q..];
    assert s[0] == SHORTEST[q] && s[1..] == SHORTEST[q + 1..];
    if q + 1 < DONE {
      Completes(q + 1);
    }
  }

  /** What does not fail within the name can be completed after it. */
  lemma {:induction false} Survivor(q: nat, b: string) returns (z: string)
    requires q < DONE && !Dies(q, b) && (q > 0 || b != "")
    ensures Accepts(q, b + z) && |z| < DONE
    decreases |b|
  {
    Shortest();
    if b == "" {
      Completes(q);
      z := SHORTEST[q..];
      assert b + z == z;
    } else {
      var r := Next(q, b[0]);
      z := "";
      if r < DONE {
        z := Survivor(r, b[1..]);
      }
      assert (b + z)[0] == b[0] && (b + z)[1..] == b[1..] + z;
    }
  }

  lemma {:induction false} ShortHasNone(s: string)
    requires |s| < DONE
    ensures !HasToolkit(s)
    decreases |s|
  {
    Shortest();
    if s != "" {
      ShortHasNone(s[1..]);
    }
  }

  lemma DropNext(s: string, i: nat)
    requires i < |s|
    ensures s[1..][i..] == s[i + 1..]
  {
  }

  lemma HeadAndRest(s: string)
    requires s != ""
    ensures [s[0]] + s[1..] == s
  {
  }

  lemma DropFirst(a: string, c: string, i: nat)
    requires i <= |a|
    ensures (a + c)[i..] == a[i..] + c
  {
  }

  lemma LiteralStep(x: string, rest: string, b: string)
    requires x != "" && MatchLength(x[0..] + rest) == 0
    ensures SubToolkit(x + rest, b) == [x[0]] + SubToolkit(x[1..] + rest, b)
  {
    assert x[0..] == x;
    DropFirst(x, rest, 1);
  }

  lemma {:induction false} LiteralPrefix(x: string, rest: string, b: string)
    requires forall i | 0 <= i < |x| :: MatchLength(x[i..] + rest) == 0
    ensures SubToolkit(x + rest, b) == x + SubToolkit(rest, b)
    decreases |x|
  {
    if x == "" {
      assert x + rest == rest && x + SubToolkit(rest, b) == SubToolkit(rest, b);
    } else {
      forall i | 0 <= i < |x[1..]| ensures MatchLength(x[1..][i..] + rest) == 0 {
        DropNext(x, i);
      }
      LiteralPrefix(x[1..], rest, b);
      LiteralStep(x, rest, b);
      HeadInFront(x, SubToolkit(rest, b));
    }
  }

  lemma HeadInFront(x: string, y: string)
    requires x != ""
    ensures [x[0]] + (x[1..] + y) == x + y
  {
  }

  lemma NoRestart(i: nat)
    requires 0 < i < DONE - 1
    ensures !(SHORTEST[i] == 'c' && SHORTEST[i + 1] == 'd')
  {
    ShortestChars();
  }

  /** A text that starts with a whole reference. */
  lemma ReferenceFirst(s: string, z: string)
    requires IsToolkit(s)
    ensures MatchLength(s + z) == |s| && s != "" && SubToolkit(s + z, s) == s + SubToolkit(z, s)
  {
    Shortest();
    var run := WordRun(s[|HEAD|..]);
    RunInFront(s[|HEAD|..], z);
    assert (s + z)[|HEAD|..] == s[|HEAD|..] + z;
    assert (s + z)[|HEAD| + run..] == s[|HEAD| + run..] + z;
    assert (s + z)[|s|..] == z;
  }

  lemma {:induction false} RunInFront(s: string, z: string)
    requires WordRun(s) < |s|
    ensures WordRun(s + z) == WordRun(s)
    decreases |s|
  {
    assert (s + z)[0] == s[0] && (s + z)[1..] == s[1..] + z;
    if IsWordChar(s[0]) {
      RunInFront(s[1..], z);
    }
  }

  /** Whatever is under way when a whole reference comes, it fails there. */
  lemma ReferenceBlocks(m: string)
    requires IsToolkit(m)
    ensures Blocks(m)
  {
    forall q, z | 0 < q < DONE ensures !Accepts(q, m + z) {
      ReferenceStops(q, m, z);
    }
  }

  lemma ReferenceStops(q: nat, m: string, z: string)
    requires IsToolkit(m) && 0 < q < DONE
    ensures !Accepts(q, m + z)
  {
    ShortestChars();
    Shortest();
    var s := m + z;
    assert s[..4] == HEAD && s[0] == 'c' && s[1] == 'd' && s[2] == 'k' && s[3] == '-';
    if q > IN_WORD {
      AcceptsTail(q, s);
      if SHORTEST[q] != 'c' {
        NotPrefix(SHORTEST[q..], s, 0);
      } else {
        NoRestart(q);
        NotPrefix(SHORTEST[q..], s, 1);
      }
    } else if q >= IN_WORD - 1 {
      WordThenReference(m, z);
      AcceptsAfterHead(s);
      AcceptsWord(s);
    }
  }

  /** After `cdk` the tail does not follow: the hyphen is followed by the word of the reference. */
  lemma WordThenReference(m: string, z: string)
    requires IsToolkit(m)
    ensures WordRun(m + z) == 3 && !(TAIL <= (m + z)[3..])
  {
    Shortest();
    ShortestChars();
    var s := m + z;
    assert s[0] == HEAD[0] == 'c' && s[1] == HEAD[1] == 'd' && s[2] == HEAD[2] == 'k' && s[3] == HEAD[3] == '-';
    assert s[1..][1..] == s[2..] && s[2..][1..] == s[3..];
    assert WordRun(s[3..]) == 0 && WordRun(s[2..]) == 1 && WordRun(s[1..]) == 2;
    var i := TailDiffers(m, s);
    NotPrefix(TAIL, s[3..], i);
  }

  lemma NotPrefix(p: string, s: string, i: nat)
    requires i < |p| && (i < |s| ==> p[i] != s[i])
    ensures !(p <= s)
  {
  }

  /** Where the tail differs from what follows the `cdk` of a reference. */
  lemma TailDiffers(m: string, s: string) returns (i: nat)
    requires IsToolkit(m) && m <= s
    ensures i < 40 == |TAIL| && 3 + i < |s| && TAIL[i] != s[3..][i]
  {
    Shortest();
    ShortestChars();
    var run := WordRun(m[4..]);
    assert TAIL[0] == SHORTEST[5] && TAIL[1] == SHORTEST[6] && TAIL[7] == SHORTEST[12] && TAIL[8] == SHORTEST[13];
    assert s[4 + run] == m[4 + run..][0] == TAIL[0] && s[5 + run] == m[4 + run..][1] == TAIL[1];
    if run > 6 {
      i := 7;
      assert s[10] == m[4..][6];
    } else if run == 6 {
      i := 8;
    } else {
      i := 1 + run;
      assert TAIL[1 + run] == SHORTEST[6 + run];
    }
  }

  /** Replacing references by a reference is settled after one run. */
  lemma {:induction false} SelfSettles(s: string, b: string)
    requires IsToolkit(b)
    ensures SubToolkit(SubToolkit(s, b), b) == SubToolkit(s, b)
    decreases |s|
  {
    if s != "" {
      if MatchLength(s) > 0 {
        SelfSettles(s[MatchLength(s)..], b);
        ReferenceFirst(b, SubToolkit(s[MatchLength(s)..], b));
      } else {
        SelfSettles(s[1..], b);
        ReferenceBlocks(b);
        SubLiteral(s, b);
        assert SubToolkit(s, b)[1..] == SubToolkit(s[1..], b);
      }
    }
  }

  lemma SubReference(m: string, z: string, b: string)
    requires IsToolkit(m)
    ensures SubToolkit(m + z, b) == b + SubToolkit(z, b)
  {
    ReferenceFirst(m, z);
    assert (m + z)[|m|..] == z;
  }

  lemma ShortestIsToolkit()
    ensures IsToolkit(SHORTEST)
  {
    Shortest();
    WordOfOne(TAIL);
    assert SHORTEST[|HEAD|..] == "x" + TAIL;
    assert SHORTEST[|HEAD| + 1..] == TAIL;
  }

  lemma WordOfOne(tail: string)
    requires tail != "" && !IsWordChar(tail[0])
    ensures WordRun("x" + tail) == 1
  {
    assert ("x" + tail)[0] == 'x' && ("x" + tail)[1..] == tail;
  }

  // ---- Without an inert name some text keeps a reference ----

  lemma PrefixIsLiteral(q: nat, i: nat, z: string)
    requires i < q < DONE
    ensures MatchLength(SHORTEST[..q][i..] + (SHORTEST + z)) == 0
  {
    Shortest();
    ShortestChars();
    var x, y := SHORTEST[..q][i..], SHORTEST + z;
    var s := x + y;
    if i == 0 {
      assert x == SHORTEST[..q];
      ShortestIsToolkit();
      ReferenceStops(q, SHORTEST, z);
      Resumes(0, q, y);
      assert SHORTEST[0..q] == SHORTEST[..q];
      AcceptsIffMatch(s);
    } else {
      assert HEAD[0] == 'c' && HEAD[1] == 'd' && s[0] == SHORTEST[i];
      assert s[1] == if i + 1 < q then SHORTEST[i + 1] else 'c';
      if s[0] != 'c' {
        NotPrefix(HEAD, s, 0);
      } else {
        NoRestart(i);
        NotPrefix(HEAD, s, 1);
      }
    }
  }

  lemma {:induction false} Resumes(p: nat, q: nat, y: string)
    requires p <= q < DONE
    ensures Accepts(p, SHORTEST[p..q] + y) <==> Accepts(q, y)
    decreases q - p
  {
    Shortest();
    var s := SHORTEST[p..q] + y;
    if p == q {
      assert s == y;
    } else {
      assert s[0] == SHORTEST[p] && s[1..] == SHORTEST[p + 1..q] + y;
      Resumes(p + 1, q, y);
    }
  }

  /** A text that starts with the beginning of a reference, then the name: one reference is left. */
  lemma NameCompletes(q: nat, b: string) returns (s: string)
    requires 0 < q < DONE && !Dies(q, b)
    ensures HasToolkit(SubToolkit(s, b))
  {
    Shortest();
    var z := Survivor(q, b);
    var x := SHORTEST[..q];
    s := x + (SHORTEST + z);
    forall i | 0 <= i < |x| ensures MatchLength(x[i..] + (SHORTEST + z)) == 0 {
      PrefixIsLiteral(q, i, z);
    }
    LiteralPrefix(x, SHORTEST + z, b);
    ShortestIsToolkit();
    SubReference(SHORTEST, z, b);
    ShortHasNone(z);
    NothingToReplace(z, b);
    Resumes(0, q, b + z);
    assert SHORTEST[0..q] == x;
    AcceptsIffMatch(x + (b + z));
  }

  /** A text in which a reference that starts in the name is completed. */
  lemma NameStarts(j: nat, b: string) returns (s: string)
    requires j < |b| && !Dies(0, b[j..])
    ensures HasToolkit(SubToolkit(s, b))
  {
    var z := Survivor(0, b[j..]);
    s := SHORTEST + z;
    ShortestIsToolkit();
    SubReference(SHORTEST, z, b);
    ShortHasNone(z);
    NothingToReplace(z, b);
    AcceptsIffMatch(b[j..] + z);
    DropFirst(b, z, j);
    HasLater(b + z, j);
  }

  lemma {:induction false} HasLater(s: string, j: nat)
    requires j <= |s| && HasToolkit(s[j..])
    ensures HasToolkit(s)
    decreases j
  {
    if j == 0 {
      assert s[0..] == s;
    } else {
      assert s[1..][j - 1..] == s[j..];
      HasLater(s[1..], j - 1);
    }
  }

  ghost predicate Cleans(b: string) {
    forall s :: !HasToolkit(SubToolkit(s, b))
  }

  /** No text keeps a reference, if and only if the name is inert. */
  lemma NoToolkitLeftIff(b: string)
    ensures Cleans(b) <==> Inert(b)
  {
    if Inert(b) {
      forall s ensures !HasToolkit(SubToolkit(s, b)) {
        NoToolkitLeft(s, b);
      }
    } else {
      var s := KeepsToolkit(b);
    }
  }

  lemma KeepsToolkit(b: string) returns (s: string)
    requires !Inert(b)
    ensures HasToolkit(SubToolkit(s, b))
  {
    if q :| 0 < q < DONE && !Dies(q, b) {
      s := NameCompletes(q, b);
    } else {
      var j :| 0 <= j < |b| && !Dies(0, b[j..]);
      s := NameStarts(j, b);
    }
  }
}
