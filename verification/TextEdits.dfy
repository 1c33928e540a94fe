/** Substring search and replacement, and base names of keys. */
module TextEdits {

  /** `sub in s`. */
  predicate Contains(s: string, sub: string) {
    sub <= s || (s != "" && Contains(s[1..], sub))
  }

  /** `s.replace(old, new)`: non-overlapping occurrences from the left. */
  function Replace(s: string, old_: string, new_: string): (r: string)
    requires old_ != ""
    decreases |s|
  {
    if s == "" then ""
    else if old_ <= s then new_ + Replace(s[|old_|..], old_, new_)
    else [s[0]] + Replace(s[1..], old_, new_)
  }

  lemma {:induction false} ReplaceNothing(s: string, old_: string, new_: string)
    requires old_ != "" && !Contains(s, old_)
    ensures Replace(s, old_, new_) == s
    decreases |s|
  {
    if s != "" {
      ReplaceNothing(s[1..], old_, new_);
      assert s == [s[0]] + s[1..];
    }
  }

  lemma {:induction false} ContainsInContext(a: string, s: string, b: string, sub: string)
    requires Contains(s, sub)
    ensures Contains(a + s + b, sub)
    decreases |a|, |s|
  {
    if a != "" {
      ContainsInContext(a[1..], s, b, sub);
      assert (a + s + b)[1..] == a[1..] + s + b;
    } else if sub <= s {
      assert a + s + b == s + b;
    } else {
      ContainsInContext("", s[1..], b, sub);
      assert a + s + b == s + b && (s + b)[1..] == "" + s[1..] + b;
    }
  }

  ghost predicate OccursAt(s: string, sub: string, i: nat) {
    i + |sub| <= |s| && s[i..i + |sub|] == sub
  }

  /** `Contains` finds an occurrence at any position. */
  lemma {:induction false} ContainsIff(s: string, sub: string)
    ensures Contains(s, sub) <==> exists i: nat :: OccursAt(s, sub, i)
    decreases |s|
  {
    assert sub <= s <==> OccursAt(s, sub, 0);
    if s != "" {
      ContainsIff(s[1..], sub);
      forall i: nat ensures OccursAt(s[1..], sub, i) <==> OccursAt(s, sub, i + 1) {
        OccursNext(s, sub, i);
      }
      if i: nat :| OccursAt(s, sub, i) && i > 0 {
        assert OccursAt(s[1..], sub, i - 1);
      }
    }
  }

  lemma OccursNext(s: string, sub: string, i: nat)
    requires s != ""
    ensures OccursAt(s[1..], sub, i) <==> OccursAt(s, sub, i + 1)
  {
    if i + 1 + |sub| <= |s| {
      assert s[1..][i..i + |sub|] == s[i + 1..i + 1 + |sub|];
    }
  }

  /** The first occurrence is replaced, then the rest of the text, so every occurrence that does not
      overlap a replaced one is. */
  lemma {:induction false} ReplaceFirst(u: string, w: string, old_: string, new_: string)
    requires old_ != "" && forall i: nat | i < |u| :: !OccursAt(u + old_ + w, old_, i)
    ensures Replace(u + old_ + w, old_, new_) == u + new_ + Replace(w, old_, new_)
    decreases |u|
  {
    var s := u + old_ + w;
    if u == "" {
      assert s == old_ + w && s[|old_|..] == w;
      assert u + new_ == new_;
    } else {
      var v := u[1..];
      assert s[1..] == v + old_ + w && s[0] == u[0];
      assert !OccursAt(s, old_, 0);
      forall i: nat | i < |v| ensures !OccursAt(v + old_ + w, old_, i) {
        OccursNext(s, old_, i);
      }
      ReplaceFirst(v, w, old_, new_);
      OneMore(u, new_, Replace(w, old_, new_));
    }
  }

  lemma OneMore(u: string, v: string, w: string)
    requires u != ""
    ensures [u[0]] + (u[1..] + v + w) == u + v + w
  {
  }

  /** Replacing a text that occurs changes nothing exactly when it is replaced by itself. */
  lemma {:induction false} ReplaceSame(s: string, old_: string, new_: string)
    requires old_ != "" && Contains(s, old_)
    ensures Replace(s, old_, new_) == s <==> old_ == new_
    decreases |s|
  {
    if old_ == new_ {
      ReplaceBySelf(s, old_);
    } else if old_ <= s {
      if |new_| == |old_| {
        assert Replace(s, old_, new_)[..|old_|] == new_;
      } else {
        ReplaceLengths(s, old_, new_);
      }
    } else {
      ReplaceSame(s[1..], old_, new_);
      assert Replace(s, old_, new_)[1..] == Replace(s[1..], old_, new_);
    }
  }

  lemma {:induction false} ReplaceBySelf(s: string, old_: string)
    requires old_ != ""
    ensures Replace(s, old_, old_) == s
    decreases |s|
  {
    if s != "" {
      if old_ <= s {
        ReplaceBySelf(s[|old_|..], old_);
        assert s == old_ + s[|old_|..];
      } else {
        ReplaceBySelf(s[1..], old_);
        assert s == [s[0]] + s[1..];
      }
    }
  }

  lemma {:induction false} ReplaceLengths(s: string, old_: string, new_: string)
    requires old_ != ""
    ensures |new_| <= |old_| ==> |Replace(s, old_, new_)| <= |s|
    ensures |new_| >= |old_| ==> |Replace(s, old_, new_)| >= |s|
    ensures |new_| < |old_| && Contains(s, old_) ==> |Replace(s, old_, new_)| < |s|
    ensures |new_| > |old_| && Contains(s, old_) ==> |Replace(s, old_, new_)| > |s|
    decreases |s|
  {
    if s != "" {
      if old_ <= s {
        ReplaceLengths(s[|old_|..], old_, new_);
      } else {
        ReplaceLengths(s[1..], old_, new_);
      }
    }
  }

  /** A replacement that contains what it replaces leaves it there, and makes the text longer. */
  lemma {:induction false} ReplaceGrows(s: string, old_: string, new_: string)
    requires old_ != "" && Contains(s, old_) && Contains(new_, old_) && |new_| > |old_|
    ensures Contains(Replace(s, old_, new_), old_)
    ensures |Replace(s, old_, new_)| > |s|
    decreases |s|
  {
    if old_ <= s {
      var rest := Replace(s[|old_|..], old_, new_);
      ContainsInContext("", new_, rest, old_);
      assert "" + new_ + rest == new_ + rest;
      ReplaceLengths(s[|old_|..], old_, new_);
    } else {
      ReplaceGrows(s[1..], old_, new_);
      var rest := Replace(s[1..], old_, new_);
      ContainsInContext([s[0]], rest, "", old_);
      assert [s[0]] + rest + "" == [s[0]] + rest;
    }
  }

  /** `os.path.basename` on a key: what follows the last slash. */
  function Basename(s: string): (r: string)
    ensures '/' !in r && |r| <= |s|
    ensures '/' !in s ==> r == s
    decreases |s|
  {
    if '/' in s then Basename(s[1..]) else s
  }

  lemma {:induction false} BasenameOfJoined(folder: string, f: string)
    requires '/' !in f
    ensures Basename(folder + "/" + f) == f
    decreases |folder|
  {
    var s := folder + "/" + f;
    assert s[|folder|] == '/';
    if folder == "" {
      assert s[1..] == f;
    } else {
      assert s[1..] == folder[1..] + "/" + f;
      BasenameOfJoined(folder[1..], f);
    }
  }
}
