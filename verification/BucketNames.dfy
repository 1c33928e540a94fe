/** Bucket names that can be seen to be inert, and one that is not. */
module BucketNames {
  import opened ToolkitBuckets
  import opened ToolkitReruns

  /** A character that bucket names may have. */
  predicate IsNameChar(c: char) {
    'a' <= c <= 'z' || IsDigit(c) || c == '-' || c == '.'
  }

  predicate IsDigit(c: char) {
    '0' <= c <= '9'
  }

  predicate IsName(s: string) {
    forall i | 0 <= i < |s| :: IsNameChar(s[i])
  }

  function Hyphens(s: string): nat {
    if s == "" then 0 else (if s[0] == '-' then 1 else 0) + Hyphens(s[1..])
  }

  /** Hyphens that a match in state `q` can still read before a character no name has. */
  function HyphensAhead(q: nat): nat {
    if q <= 3 then 3 else if q <= 5 then 2 else if q <= 12 then 1 else if q == 30 then 1 else 0
  }

  lemma HyphenPlaces(q: nat)
    requires q < DONE
    ensures SHORTEST[q] == '-' <==> q == 3 || q == 5 || q == 12 || q == 30
    ensures SHORTEST[q] == '}' <==> q == 29 || q == 44
    ensures q > IN_WORD ==> !IsDigit(SHORTEST[q])
    ensures q == 13 || q == 31 ==> !IsNameChar(SHORTEST[q])
  {
    ShortestChars();
  }

  lemma NameStep(q: nat, c: char)
    requires q < DONE && IsNameChar(c)
    ensures Next(q, c) < DONE
    ensures Next(q, c) > 0 ==> HyphensAhead(Next(q, c)) + (if c == '-' then 1 else 0) <= HyphensAhead(q)
    ensures q > IN_WORD && IsDigit(c) ==> Next(q, c) == -1
  {
    Shortest();
    HyphenPlaces(q);
  }

  lemma {:induction false} ManyHyphensDie(q: nat, s: string)
    requires q < DONE && IsName(s) && Hyphens(s) > HyphensAhead(q)
    ensures Dies(q, s)
    decreases |s|
  {
    NameStep(q, s[0]);
    var r := Next(q, s[0]);
    if r > 0 {
      ManyHyphensDie(r, s[1..]);
    }
  }

  ghost predicate EndsInDigit(s: string) {
    s != "" && IsDigit(s[|s| - 1])
  }

  lemma {:induction false} TailEndsNoName(q: nat, s: string)
    requires IN_WORD < q < DONE && IsName(s) && EndsInDigit(s)
    ensures Dies(q, s)
    decreases |s|
  {
    NameStep(q, s[0]);
    var r := Next(q, s[0]);
    if r > 0 {
      TailEndsNoName(r, s[1..]);
    }
  }

  lemma {:induction false} WordToTheEnd(q: nat, s: string)
    requires IN_WORD - 1 <= q <= IN_WORD && IsName(s) && EndsInDigit(s) && !Dies(q, s)
    ensures '-' !in s
    decreases |s|
  {
    ShortestChars();
    NameStep(q, s[0]);
    var r := Next(q, s[0]);
    if r == IN_WORD {
      if |s| > 1 {
        WordToTheEnd(r, s[1..]);
      }
      assert s == [s[0]] + s[1..];
    } else {
      TailEndsNoName(r, s[1..]);
    }
  }

  /** A name in which a reference could start: only its last part is still a possible word. */
  lemma {:induction false} HeadThenWord(q: nat, s: string)
    requires q < 4 && IsName(s) && EndsInDigit(s) && !Dies(q, s)
    ensures |s| > 4 - q && s[3 - q] == '-' && '-' !in s[4 - q..]
    ensures forall i | 0 <= i < 3 - q :: s[i] == "cdk"[q + i]
    decreases 4 - q
  {
    ShortestChars();
    assert "cdk"[0] == 'c' && "cdk"[1] == 'd' && "cdk"[2] == 'k';
    NameStep(q, s[0]);
    assert s[0] == SHORTEST[q] && !IsDigit(s[0]) && |s| > 1;
    if q < 3 {
      HeadThenWord(q + 1, s[1..]);
      assert s[1..][4 - (q + 1)..] == s[4 - q..];
      assert forall i | 0 < i < 3 - q :: s[i] == s[1..][i - 1];
    } else {
      WordToTheEnd(4, s[1..]);
    }
  }

  predicate EndsInCdk(s: string) {
    |s| >= 3 && s[|s| - 3] == 'c' && s[|s| - 2] == 'd' && s[|s| - 1] == 'k'
  }

  lemma CdkBeforeLast(h: string, d: string, j: nat)
    requires j < |h + "-" + d| && '-' !in d
    requires IsName(h + "-" + d) && EndsInDigit((h + "-" + d)[j..]) && !Dies(0, (h + "-" + d)[j..])
    ensures EndsInCdk(h)
  {
    var b := h + "-" + d;
    var s := b[j..];
    HeadThenWord(0, s);
    assert "cdk"[0] == 'c' && "cdk"[1] == 'd' && "cdk"[2] == 'k';
    assert s[0] == 'c' && s[1] == 'd' && s[2] == 'k';
    assert b[|h|] == '-' && b[j + 3] == '-';
    assert forall i | |h| < i < |b| :: b[i] == d[i - |h| - 1];
    assert forall i | j + 3 < i < |b| :: b[i] == s[4..][i - j - 4];
    assert j + 3 == |h|;
    assert h[j] == b[j] && h[j + 1] == b[j + 1] && h[j + 2] == b[j + 2];
  }

  /** A name of at least five parts whose last ends in a digit, and whose part before that does not end in
      `cdk`. */
  lemma NameIsInert(h: string, d: string)
    requires IsName(h + "-" + d) && '-' !in d && EndsInDigit(d) && Hyphens(h + "-" + d) >= 4 && !EndsInCdk(h)
    ensures Inert(h + "-" + d)
  {
    var b := h + "-" + d;
    forall q | 0 < q < DONE ensures Dies(q, b) {
      ManyHyphensDie(q, b);
    }
    forall j | 0 <= j < |b| ensures Dies(0, b[j..]) {
      assert b[j..][|b[j..]| - 1] == b[|b| - 1] == d[|d| - 1];
      if !Dies(0, b[j..]) {
        CdkBeforeLast(h, d, j);
      }
    }
  }

  lemma {:induction false} HyphensOfBoth(a: string, c: string)
    ensures Hyphens(a + c) == Hyphens(a) + Hyphens(c)
    decreases |a|
  {
    if a == "" {
      assert a + c == c;
    } else {
      assert (a + c)[0] == a[0] && (a + c)[1..] == a[1..] + c;
      HyphensOfBoth(a[1..], c);
    }
  }

  /** `f"{bucket_prefix}-{account_id}-{region}"`, for a region such as `us-east-1`. */
  function PublishingBucket(prefix: string, account: string, area: string, place: string, number: string): string {
    prefix + "-" + account + "-" + area + "-" + place + "-" + number
  }

  lemma PublishingBucketIsInert(prefix: string, account: string, area: string, place: string, number: string)
    requires IsName(prefix) && IsName(account) && IsName(area) && IsName(place) && IsName(number)
    requires '-' !in number && EndsInDigit(number) && !EndsInCdk(place)
    ensures Inert(PublishingBucket(prefix, account, area, place, number))
  {
    var a := prefix + "-" + account + "-" + area + "-";
    HyphensOfBoth(prefix, "-");
    HyphensOfBoth(prefix + "-", account);
    HyphensOfBoth(prefix + "-" + account, "-");
    HyphensOfBoth(prefix + "-" + account + "-", area);
    HyphensOfBoth(prefix + "-" + account + "-" + area, "-");
    HyphensOfBoth(a, place);
    HyphensOfBoth(a + place, "-");
    HyphensOfBoth(a + place + "-", number);
    assert "-"[1..] == "" && Hyphens("-") == 1;
    CdkInLastPart(a, place);
    NameIsInert(a + place, number);
  }

  lemma CdkInLastPart(a: string, place: string)
    requires a != "" && a[|a| - 1] == '-' && !EndsInCdk(place)
    ensures !EndsInCdk(a + place)
  {
    var s := a + place;
    if |place| >= 3 {
      assert s[|s| - 3] == place[|place| - 3] && s[|s| - 2] == place[|place| - 2] && s[|s| - 1] == place[|place| - 1];
    } else {
      assert s[|s| - 1 - |place|] == '-';
    }
  }

  /** A bucket name that is no reference, and yet lets one arise that a second run replaces. */
  lemma FooBucket()
    ensures var text := SHORTEST + TAIL;
            && !HasToolkit("cdk-foo") && HasToolkit(SubToolkit(text, "cdk-foo"))
            && SubToolkit(SubToolkit(text, "cdk-foo"), "cdk-foo") != SubToolkit(text, "cdk-foo")
  {
    var b := "cdk-foo";
    Shortest();
    ShortHasNone(b);
    ShortHasNone(TAIL);
    NothingToReplace(TAIL, b);
    ShortestIsToolkit();
    SubReference(SHORTEST, TAIL, b);
    FooReference();
    SettledIff(SHORTEST + TAIL, b);
    ShortHasNone(b);
  }

  lemma FooReference()
    ensures MatchLength("cdk-foo" + TAIL) > 0 && !IsToolkit("cdk-foo")
  {
    Shortest();
    var s := "cdk-foo" + TAIL;
    assert s[4..] == "foo" + TAIL;
    assert ("foo" + TAIL)[1..] == "oo" + TAIL && ("oo" + TAIL)[1..] == "o" + TAIL && ("o" + TAIL)[1..] == TAIL;
    assert "foo"[0] == 'f' && "foo"[1] == 'o';
    assert WordRun(TAIL) == 0 && WordRun("o" + TAIL) == 1;
    assert WordRun("oo" + TAIL) == 2 && WordRun("foo" + TAIL) == 3;
    assert s[4 + 3..] == TAIL;
    assert HEAD <= s;
  }
}
