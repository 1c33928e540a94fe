/** What rewriting a template again changes. */
module AssetReruns {
  import opened Results
  import opened JsonTrees
  import opened TextEdits
  import opened AssetUpload
  import opened AssetTemplates
  import opened ToolkitBuckets
  import opened ToolkitReruns

  // ---- The texts that passes 3 and 4 look at ----

  /** A segment of a visited join, or the text of a visited substitution. */
  datatype Spot = Segment(text: string) | Substitution(text: string)

  ghost function Segments(parts: seq<Json>): (r: set<Spot>)
    ensures forall s :: s in r <==> s.Segment? && Text(s.text) in parts
  {
    set i | 0 <= i < |parts| && parts[i].Text? :: Segment(parts[i].text)
  }

  ghost function Spots(rw: Rewriter, t: Json): (r: set<Spot>)
    decreases t, 1
  {
    match t
    case Obj(fields) => set k, s | k in fields && s in FieldSpots(rw, t, k) :: s
    case List(items) => set i, s | 0 <= i < |items| && s in Spots(rw, items[i]) :: s
    case _ => {}
  }

  ghost function FieldSpots(rw: Rewriter, t: Json, k: string): (r: set<Spot>)
    requires t.Obj? && k in t.fields
    decreases t, 0
  {
    var v := t.fields[k];
    if k == "S3Bucket" && TakesBucket(rw, t.fields) then {}
    else if k == "Fn::Sub" && v.Text? then {Substitution(v.text)}
    else if k == "Fn::Join" && IsJoin(v) then Segments(v.items[1].items) + Spots(rw, v)
    else Spots(rw, v)
  }

  lemma JoinSpots(rw: Rewriter, v: Json)
    requires IsJoin(v)
    ensures Spots(rw, v) == Spots(rw, v.items[0]) + Spots(rw, v.items[1])
  {
    assert forall s | s in Spots(rw, v.items[0]) :: 0 <= 0 < |v.items| && s in Spots(rw, v.items[0]);
    assert forall s | s in Spots(rw, v.items[1]) :: 0 <= 1 < |v.items| && s in Spots(rw, v.items[1]);
  }

  // ---- Keys of the upload step ----

  /** A new key that is mapped itself stays. */
  ghost predicate StableKeys(rw: Rewriter) {
    forall k | k in rw.keys.newKey && rw.keys.newKey[k] in rw.keys.newKey ::
      rw.keys.newKey[rw.keys.newKey[k]] == rw.keys.newKey[k]
  }

  /** The keys the upload step makes are stable, whatever the old ones were. */
  lemma UploadKeysStable(rw: Rewriter, version: string)
    requires forall k | k in rw.keys.newKey :: rw.keys.newKey[k] == NewKey(version, k)
    ensures StableKeys(rw)
  {
    forall k | k in rw.keys.newKey && rw.keys.newKey[k] in rw.keys.newKey
      ensures rw.keys.newKey[rw.keys.newKey[k]] == rw.keys.newKey[k]
    {
      NewKeyStable(version, k);
    }
  }

  /** The new key of a key without slashes extends it. */
  lemma SlashFreeKeyExtends(version: string, k: string)
    requires '/' !in k
    ensures Contains(NewKey(version, k), k) && NewKey(version, k) != k
  {
    var folder := version + "/assets/";
    assert k <= k && Contains(k, k);
    ContainsInContext(folder, k, "", k);
    assert folder + k + "" == NewKey(version, k);
    assert |NewKey(version, k)| > |k|;
  }

  // ---- Main result: rewriting again ----

  /** Nothing would change at the spot again: in the rewritten segment the deciding key, if any, is its own
      new key; the rewritten substitution holds no toolkit reference, or the bucket itself is one. */
  ghost predicate Settled(rw: Rewriter, s: Spot)
    requires rw.Valid()
  {
    match s
    case Segment(part) =>
      var last := LastMentioned(rw.keys.order, NewPart(rw, part));
      last.Some? ==> last.value in rw.keys.newKey && rw.keys.newKey[last.value] == last.value
    case Substitution(text) => !HasToolkit(SubToolkit(text, rw.bucket)) || IsToolkit(rw.bucket)
  }

  lemma SegmentTwice(rw: Rewriter, part: string)
    requires rw.Valid()
    ensures NewPart(rw, NewPart(rw, part)) == NewPart(rw, part) <==> Settled(rw, Segment(part))
  {
    var once := NewPart(rw, part);
    var last := LastMentioned(rw.keys.order, once);
    if last.Some? {
      assert last.value in rw.keys.newKey;
      ReplaceSame(once, last.value, rw.keys.newKey[last.value]);
    }
  }

  /** A segment whose deciding key is extended by its new key grows and still mentions it, on every run. */
  lemma PartGrows(rw: Rewriter, part: string, k: string)
    requires rw.Valid() && LastMentioned(rw.keys.order, part) == Some(k) && k in rw.keys.newKey
    requires Contains(rw.keys.newKey[k], k) && rw.keys.newKey[k] != k
    ensures |NewPart(rw, part)| > |part|
    ensures LastMentioned(rw.keys.order, NewPart(rw, part)).Some?
  {
    LongerWhenExtending(rw.keys.newKey[k], k);
    ReplaceGrows(part, k, rw.keys.newKey[k]);
  }

  lemma {:induction false} LongerWhenExtending(s: string, sub: string)
    requires Contains(s, sub)
    ensures |s| >= |sub| && (|s| == |sub| ==> s == sub)
    decreases |s|
  {
    if !(sub <= s) {
      LongerWhenExtending(s[1..], sub);
    }
  }

  /** The object pass 2 looks at decides the same way after rewriting. */
  lemma BucketDecisionStable(rw: Rewriter, t: Json)
    requires rw.Valid() && StableKeys(rw) && t.Obj? && Rewrite(rw, t).Obj?
    ensures TakesBucket(rw, Rewrite(rw, t).fields) <==> TakesBucket(rw, t.fields)
  {
    assert Rewrite(rw, t).fields.Keys == t.fields.Keys;
    if "S3Key" in t.fields {
      var v, w := t.fields["S3Key"], Rewrite(rw, t).fields["S3Key"];
      assert w == RewriteField(rw, t, "S3Key");
      if v.Text? {
        assert w == NewS3Key(rw, v) && w.Text? && NewS3Key(rw, w) == w;
      } else {
        assert !w.Text?;
      }
    }
  }

  ghost predicate AllSettled(rw: Rewriter, spots: set<Spot>)
    requires rw.Valid()
  {
    forall s | s in spots :: Settled(rw, s)
  }

  lemma {:induction false} FieldTwice(rw: Rewriter, t: Json, k: string)
    requires rw.Valid() && StableKeys(rw) && t.Obj? && k in t.fields
    ensures RewriteField(rw, Rewrite(rw, t), k) == RewriteField(rw, t, k) <==> AllSettled(rw, FieldSpots(rw, t, k))
    decreases t, 0
  {
    var v, w := t.fields[k], RewriteField(rw, t, k);
    assert Rewrite(rw, t).fields[k] == w;
    BucketDecisionStable(rw, t);
    if k == "S3Key" && v.Text? {
      assert NewS3Key(rw, NewS3Key(rw, v)) == NewS3Key(rw, v);
    } else if k == "S3Bucket" && TakesBucket(rw, t.fields) {
    } else if k == "Fn::Sub" && v.Text? {
      SettledIff(v.text, rw.bucket);
      assert Settled(rw, Substitution(v.text)) <==> AllSettled(rw, FieldSpots(rw, t, k));
    } else if k == "Fn::Join" && IsJoin(v) {
      RewriteTwice(rw, v.items[0]);
      PartsTwice(rw, v.items[1]);
      JoinSpots(rw, v);
      assert w.items == [Rewrite(rw, v.items[0]), RewriteParts(rw, v.items[1])];
    } else {
      RewriteTwice(rw, v);
    }
  }

  lemma {:induction false} PartsTwice(rw: Rewriter, parts: Json)
    requires rw.Valid() && StableKeys(rw) && parts.List?
    ensures RewriteParts(rw, RewriteParts(rw, parts)) == RewriteParts(rw, parts) <==>
            AllSettled(rw, Segments(parts.items) + Spots(rw, parts))
    decreases parts, 1
  {
    var once := RewriteParts(rw, parts);
    var twice := RewriteParts(rw, once);
    forall i | 0 <= i < |parts.items|
      ensures twice.items[i] == once.items[i] <==> AllSettled(rw, PartSpots(rw, parts.items[i]))
    {
      if parts.items[i].Text? {
        SegmentTwice(rw, parts.items[i].text);
        assert Settled(rw, Segment(parts.items[i].text)) <==> AllSettled(rw, PartSpots(rw, parts.items[i]));
      } else {
        RewriteTwice(rw, parts.items[i]);
      }
    }
    PartsSpots(rw, parts);
    assert twice == once <==> forall i | 0 <= i < |parts.items| :: twice.items[i] == once.items[i];
  }

  ghost function PartSpots(rw: Rewriter, part: Json): set<Spot> {
    if part.Text? then {Segment(part.text)} else Spots(rw, part)
  }

  lemma PartsSpots(rw: Rewriter, parts: Json)
    requires parts.List?
    ensures forall s :: s in Segments(parts.items) + Spots(rw, parts) <==>
              exists i :: 0 <= i < |parts.items| && s in PartSpots(rw, parts.items[i])
  {
    forall s | s in Segments(parts.items)
      ensures exists i :: 0 <= i < |parts.items| && s in PartSpots(rw, parts.items[i])
    {
      var i :| 0 <= i < |parts.items| && parts.items[i] == Text(s.text);
      assert s in PartSpots(rw, parts.items[i]);
    }
    forall s | s in Spots(rw, parts)
      ensures exists i :: 0 <= i < |parts.items| && s in PartSpots(rw, parts.items[i])
    {
      var i :| 0 <= i < |parts.items| && s in Spots(rw, parts.items[i]);
      assert s in PartSpots(rw, parts.items[i]);
    }
  }

  /** Rewriting a rewritten template changes nothing if and only if every visited segment and substitution
      is settled; passes 1 and 2 are idempotent for all keys the upload step makes. */
  lemma {:induction false} RewriteTwice(rw: Rewriter, t: Json)
    requires rw.Valid() && StableKeys(rw)
    ensures Rewrite(rw, Rewrite(rw, t)) == Rewrite(rw, t) <==> AllSettled(rw, Spots(rw, t))
    decreases t, 1
  {
    var once := Rewrite(rw, t);
    var twice := Rewrite(rw, once);
    match t
    case Obj(fields) =>
      forall k | k in fields ensures twice.fields[k] == once.fields[k] <==> AllSettled(rw, FieldSpots(rw, t, k)) {
        FieldTwice(rw, t, k);
      }
      assert twice == once <==> forall k | k in fields :: twice.fields[k] == once.fields[k];
    case List(items) =>
      forall i | 0 <= i < |items| ensures twice.items[i] == once.items[i] <==> AllSettled(rw, Spots(rw, items[i])) {
        RewriteTwice(rw, items[i]);
      }
      assert twice == once <==> forall i | 0 <= i < |items| :: twice.items[i] == once.items[i];
    case _ =>
  }

  /** With keys that their new keys extend, such as those without slashes, a segment is settled exactly
      when it mentions no key. */
  lemma SettledIffNoMention(rw: Rewriter, part: string)
    requires rw.Valid()
    requires forall k | k in rw.keys.newKey :: Contains(rw.keys.newKey[k], k) && rw.keys.newKey[k] != k
    ensures Settled(rw, Segment(part)) <==> forall k | k in rw.keys.newKey :: !Contains(part, k)
  {
    var last := LastMentioned(rw.keys.order, part);
    if last.Some? {
      PartGrows(rw, part, last.value);
      assert LastMentioned(rw.keys.order, NewPart(rw, part)).value in rw.keys.newKey;
    }
    assert last.None? <==> forall k | k in rw.keys.newKey :: !Contains(part, k);
  }

  /** With the keys of the upload step and names without slashes, a second run changes nothing if and only
      if no visited segment mentions a key and every visited substitution is settled. */
  lemma UploadedTwiceIff(rw: Rewriter, version: string, t: Json)
    requires rw.Valid()
    requires forall k | k in rw.keys.newKey :: rw.keys.newKey[k] == NewKey(version, k) && '/' !in k
    ensures Rewrite(rw, Rewrite(rw, t)) == Rewrite(rw, t) <==>
            forall s | s in Spots(rw, t) ::
              if s.Segment? then forall k | k in rw.keys.newKey :: !Contains(s.text, k) else Settled(rw, s)
  {
    UploadKeysStable(rw, version);
    forall k | k in rw.keys.newKey ensures Contains(rw.keys.newKey[k], k) && rw.keys.newKey[k] != k {
      SlashFreeKeyExtends(version, k);
    }
    RewriteTwice(rw, t);
    forall s | s in Spots(rw, t) && s.Segment?
      ensures Settled(rw, s) <==> forall k | k in rw.keys.newKey :: !Contains(s.text, k)
    {
      SettledIffNoMention(rw, s.text);
    }
  }

  /** With an inert bucket name only the join segments matter. */
  lemma InertBucketTwiceIff(rw: Rewriter, t: Json)
    requires rw.Valid() && StableKeys(rw) && Inert(rw.bucket)
    ensures Rewrite(rw, Rewrite(rw, t)) == Rewrite(rw, t) <==>
            forall s | s in Spots(rw, t) && s.Segment? :: Settled(rw, s)
  {
    RewriteTwice(rw, t);
    forall s | s in Spots(rw, t) && s.Substitution? ensures Settled(rw, s) {
      NoToolkitLeft(s.text, rw.bucket);
    }
  }

  /** Passes 1 to 3 are idempotent on all templates, if and only if the bucket name is inert, or is a toolkit
      reference itself. */
  lemma FirstPassesIdempotentIff(rw: Rewriter)
    requires rw.Valid() && StableKeys(rw)
    ensures (forall t | NoSegments(rw, t) :: Rewrite(rw, Rewrite(rw, t)) == Rewrite(rw, t)) <==>
            Inert(rw.bucket) || IsToolkit(rw.bucket)
  {
    IdempotentIff(rw.bucket);
    if Inert(rw.bucket) || IsToolkit(rw.bucket) {
      forall t | NoSegments(rw, t) ensures Rewrite(rw, Rewrite(rw, t)) == Rewrite(rw, t) {
        RewriteTwice(rw, t);
        forall s | s in Spots(rw, t) ensures Settled(rw, s) {
          SettledIff(s.text, rw.bucket);
        }
      }
    } else {
      var text :| SubToolkit(SubToolkit(text, rw.bucket), rw.bucket) != SubToolkit(text, rw.bucket);
      var t := OneSubstitution(rw, text);
      RewriteTwice(rw, t);
      SettledIff(text, rw.bucket);
      assert !Settled(rw, Substitution(text));
    }
  }

  ghost predicate NoSegments(rw: Rewriter, t: Json) {
    forall s | s in Spots(rw, t) :: s.Substitution?
  }

  /** A template that is a single substitution. */
  lemma OneSubstitution(rw: Rewriter, text: string) returns (t: Json)
    ensures Spots(rw, t) == {Substitution(text)} && NoSegments(rw, t)
  {
    t := Obj(map["Fn::Sub" := Text(text)]);
    assert FieldSpots(rw, t, "Fn::Sub") == {Substitution(text)};
  }

  /** With an inert bucket name no visited substitution of the rewritten template names a toolkit bucket. */
  lemma {:induction false} NoToolkitAfterRewrite(rw: Rewriter, t: Json)
    requires rw.Valid() && StableKeys(rw) && Inert(rw.bucket)
    ensures CleanSpots(Spots(rw, Rewrite(rw, t)))
    decreases t, 1
  {
    match t
    case Obj(fields) =>
      forall k | k in fields ensures CleanSpots(FieldSpots(rw, Rewrite(rw, t), k)) {
        NoToolkitInField(rw, t, k);
      }
    case List(items) =>
      forall i | 0 <= i < |items| ensures CleanSpots(Spots(rw, Rewrite(rw, t).items[i])) {
        NoToolkitAfterRewrite(rw, items[i]);
      }
    case _ =>
  }

  ghost predicate CleanSpots(spots: set<Spot>) {
    forall s | s in spots && s.Substitution? :: !HasToolkit(s.text)
  }

  lemma {:induction false} NoToolkitInField(rw: Rewriter, t: Json, k: string)
    requires rw.Valid() && StableKeys(rw) && Inert(rw.bucket) && t.Obj? && k in t.fields
    ensures CleanSpots(FieldSpots(rw, Rewrite(rw, t), k))
    decreases t, 0
  {
    var v, w := t.fields[k], RewriteField(rw, t, k);
    assert Rewrite(rw, t).fields[k] == w;
    BucketDecisionStable(rw, t);
    if k == "S3Key" && v.Text? {
    } else if k == "S3Bucket" && TakesBucket(rw, t.fields) {
    } else if k == "Fn::Sub" && v.Text? {
      NoToolkitLeft(v.text, rw.bucket);
    } else if k == "Fn::Join" && IsJoin(v) {
      NoToolkitAfterRewrite(rw, v.items[0]);
      NoToolkitInParts(rw, v.items[1]);
      assert w.items == [Rewrite(rw, v.items[0]), RewriteParts(rw, v.items[1])];
      JoinSpots(rw, w);
    } else {
      NoToolkitAfterRewrite(rw, v);
    }
  }

  lemma {:induction false} NoToolkitInParts(rw: Rewriter, parts: Json)
    requires rw.Valid() && StableKeys(rw) && Inert(rw.bucket) && parts.List?
    ensures CleanSpots(Spots(rw, RewriteParts(rw, parts)))
    decreases parts, 1
  {
    forall i | 0 <= i < |parts.items| ensures CleanSpots(Spots(rw, RewriteParts(rw, parts).items[i])) {
      if !parts.items[i].Text? {
        NoToolkitAfterRewrite(rw, parts.items[i]);
      }
    }
  }
}
