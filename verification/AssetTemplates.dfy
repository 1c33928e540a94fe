/** Rewriting a template so that its asset references name the publishing bucket. */
module AssetTemplates {
  import opened Results
  import opened JsonTrees
  import opened TextEdits
  import opened AssetUpload
  import opened ToolkitBuckets

  /** What the rewriter is given: the key map and the name of the publishing bucket. */
  datatype Rewriter = Rewriter(keys: AssetKeys, bucket: string)
  {
    ghost predicate Valid() {
      keys.Valid() && "" !in keys.newKey
    }
  }

  // ---- The four passes, on one object ----

  /** Pass 1. */
  function NewS3Key(rw: Rewriter, v: Json): Json {
    if v.Text? && v.text in rw.keys.newKey then Text(rw.keys.newKey[v.text]) else v
  }

  /** Pass 2: the key, once rewritten, is one of the new keys. */
  predicate TakesBucket(rw: Rewriter, fields: map<string, Json>) {
    && "S3Bucket" in fields && "S3Key" in fields && fields["S3Key"].Text?
    && NewS3Key(rw, fields["S3Key"]).text in rw.keys.newKey.Values
  }

  /** The old key that decides: the last in the order of the map, each replacing in the original text. */
  function LastMentioned(order: seq<string>, part: string): (r: Option<string>)
    ensures r.Some? ==> r.value in order && Contains(part, r.value)
    ensures r.None? <==> forall k | k in order :: !Contains(part, k)
  {
    if order == [] then None
    else
      var front, last := order[..|order| - 1], order[|order| - 1];
      assert order == front + [last];
      if Contains(part, last) then Some(last) else LastMentioned(front, part)
  }

  /** Pass 4, on one text segment. */
  function NewPart(rw: Rewriter, part: string): string
    requires rw.Valid()
  {
    match LastMentioned(rw.keys.order, part)
    case None => part
    case Some(k) =>
      assert k in rw.keys.newKey;
      Replace(part, k, rw.keys.newKey[k])
  }

  lemma LastMentionedNext(order: seq<string>, i: nat, part: string)
    requires i < |order|
    ensures LastMentioned(order[..i + 1], part) ==
            if Contains(part, order[i]) then Some(order[i]) else LastMentioned(order[..i], part)
  {
    assert order[..i + 1][..i] == order[..i];
  }

  lemma {:induction false} LastMentionedAt(order: seq<string>, i: nat, part: string)
    requires i < |order| && Contains(part, order[i])
    requires forall j | i < j < |order| :: !Contains(part, order[j])
    ensures LastMentioned(order, part) == Some(order[i])
    decreases |order|
  {
    if i < |order| - 1 {
      LastMentionedAt(order[..|order| - 1], i, part);
    }
  }

  /** In a segment the key listed last, of those it mentions, is replaced everywhere; without one it stays. */
  lemma NewPartMeaning(rw: Rewriter, part: string)
    requires rw.Valid()
    ensures (forall k | k in rw.keys.newKey :: !Contains(part, k)) ==> NewPart(rw, part) == part
    ensures forall i | 0 <= i < |rw.keys.order| && Contains(part, rw.keys.order[i]) &&
                       (forall j | i < j < |rw.keys.order| :: !Contains(part, rw.keys.order[j])) ::
              rw.keys.order[i] in rw.keys.newKey && rw.keys.order[i] != "" &&
              NewPart(rw, part) == Replace(part, rw.keys.order[i], rw.keys.newKey[rw.keys.order[i]])
  {
    forall i | 0 <= i < |rw.keys.order| && Contains(part, rw.keys.order[i]) &&
               (forall j | i < j < |rw.keys.order| :: !Contains(part, rw.keys.order[j]))
      ensures rw.keys.order[i] in rw.keys.newKey && rw.keys.order[i] != "" &&
              NewPart(rw, part) == Replace(part, rw.keys.order[i], rw.keys.newKey[rw.keys.order[i]])
    {
      LastMentionedAt(rw.keys.order, i, part);
      assert rw.keys.order[i] in rw.keys.order;
    }
  }

  /** The loop over the map: every mentioned key overwrites what an earlier one wrote. */
  method RewritePart(rw: Rewriter, part: string) returns (r: string)
    requires rw.Valid()
    ensures r == NewPart(rw, part)
  {
    r := part;
    for i := 0 to |rw.keys.order|
      invariant r == Replaced(rw, part, LastMentioned(rw.keys.order[..i], part))
    {
      var oldKey := rw.keys.order[i];
      assert oldKey in rw.keys.order;
      LastMentionedNext(rw.keys.order, i, part);
      if Contains(part, oldKey) {
        r := Replace(part, oldKey, rw.keys.newKey[oldKey]);
      }
    }
    assert rw.keys.order[..|rw.keys.order|] == rw.keys.order;
    var last := LastMentioned(rw.keys.order, part);
    assert last.Some? ==> last.value in rw.keys.order;
  }

  ghost function Replaced(rw: Rewriter, part: string, key: Option<string>): string {
    if key.Some? && key.value in rw.keys.newKey && key.value != ""
    then Replace(part, key.value, rw.keys.newKey[key.value]) else part
  }

  predicate IsJoin(v: Json) {
    v.List? && |v.items| == 2 && v.items[1].List?
  }

  // ---- rewrite_obj ----

  /** A visited object has a dictionary or list under `S3Key`: looking it up raises TypeError. */
  predicate Unhashable(rw: Rewriter, t: Json) {
    match t
    case Obj(fields) =>
      || ("S3Key" in fields && (fields["S3Key"].Obj? || fields["S3Key"].List?))
      || exists k | k in fields :: !(k == "S3Bucket" && TakesBucket(rw, fields)) && Unhashable(rw, fields[k])
    case List(items) => exists i | 0 <= i < |items| :: Unhashable(rw, items[i])
    case _ => false
  }

  /** The rewritten tree. The passes only change texts and the replaced bucket, so each field is
      rewritten by its own pass and then descended into. */
  function Rewrite(rw: Rewriter, t: Json): (r: Json)
    requires rw.Valid()
    decreases t, 1
  {
    match t
    case Obj(fields) => Obj(map k | k in fields :: RewriteField(rw, t, k))
    case List(items) => List(seq(|items|, i requires 0 <= i < |items| => Rewrite(rw, items[i])))
    case _ => t
  }

  function RewriteField(rw: Rewriter, t: Json, k: string): (r: Json)
    requires rw.Valid() && t.Obj? && k in t.fields
    decreases t, 0
  {
    var v := t.fields[k];
    if k == "S3Key" && v.Text? then NewS3Key(rw, v)
    else if k == "S3Bucket" && TakesBucket(rw, t.fields) then Text(rw.bucket)
    else if k == "Fn::Sub" && v.Text? then Text(SubToolkit(v.text, rw.bucket))
    else if k == "Fn::Join" && IsJoin(v) then List([Rewrite(rw, v.items[0]), RewriteParts(rw, v.items[1])])
    else Rewrite(rw, v)
  }

  function RewriteParts(rw: Rewriter, parts: Json): (r: Json)
    requires rw.Valid() && parts.List?
    decreases parts, 0
  {
    List(seq(|parts.items|, i requires 0 <= i < |parts.items| =>
      if parts.items[i].Text? then Text(NewPart(rw, parts.items[i].text)) else Rewrite(rw, parts.items[i])))
  }

  /** The whole file: bootstrap requirements are dropped first. */
  function WithoutBootstrap(template: Json): Json {
    Delete(Delete(template, ["Parameters", "BootstrapVersion"]), ["Rules", "CheckBootstrapVersion"])
  }

  // ---- Places in a template ----

  datatype Step = Key(key: string) | Index(index: nat)

  function At(t: Json, p: seq<Step>): Option<Json>
    decreases |p|
  {
    if p == [] then Some(t)
    else
      match p[0]
      case Key(k) => if t.Obj? && k in t.fields then At(t.fields[k], p[1..]) else None
      case Index(i) => if t.List? && i < |t.items| then At(t.items[i], p[1..]) else None
  }

  /** The place is not inside a bucket that pass 2 replaces. */
  predicate Visited(rw: Rewriter, t: Json, p: seq<Step>)
    decreases |p|
  {
    if p == [] then true
    else
      match p[0]
      case Key(k) =>
        t.Obj? && k in t.fields ==>
          !(k == "S3Bucket" && TakesBucket(rw, t.fields)) && Visited(rw, t.fields[k], p[1..])
      case Index(i) => t.List? && i < |t.items| ==> Visited(rw, t.items[i], p[1..])
  }

  /** Where the passes may change a text: asset keys, substitutions, and segments of joins. */
  predicate MayChange(p: seq<Step>) {
    |p| > 0 &&
    (p[|p| - 1] == Key("S3Key") || p[|p| - 1] == Key("Fn::Sub") ||
     (|p| >= 3 && p[|p| - 3] == Key("Fn::Join") && p[|p| - 2] == Index(1)))
  }

  predicate SameKind(a: Json, b: Json) {
    match a
    case Obj(fields) => b.Obj? && b.fields.Keys == fields.Keys
    case List(items) => b.List? && |b.items| == |items|
    case Text(_) => b.Text?
    case _ => a == b
  }

  /** How the rewritten tree looks at a place of the original. */
  ghost predicate KeptAt(rw: Rewriter, a: Option<Json>, b: Option<Json>, p: seq<Step>)
    requires rw.Valid()
  {
    match (a, b)
    case (None, None) => true
    case (Some(v), Some(w)) =>
      SameKind(v, w) && (v.Obj? ==> w == Rewrite(rw, v)) && (!v.Obj? && !v.List? && !MayChange(p) ==> w == v)
    case _ => false
  }

  lemma MayChangeTail(p: seq<Step>, n: nat)
    requires n < |p| && MayChange(p[n..])
    ensures MayChange(p)
  {
  }

  /** Outside replaced buckets the shape is kept, every object is the rewritten one, and every text is
      kept except where the passes apply. */
  lemma {:induction false} RewriteAt(rw: Rewriter, t: Json, p: seq<Step>)
    requires rw.Valid() && Visited(rw, t, p)
    ensures KeptAt(rw, At(t, p), At(Rewrite(rw, t), p), p)
    decreases |p|, 0
  {
    if p != [] {
      match p[0]
      case Key(k) =>
        if t.Obj? && k in t.fields {
          FieldAt(rw, t, k, p[1..]);
          assert p == [Key(k)] + p[1..];
        }
      case Index(i) =>
        if t.List? && i < |t.items| {
          RewriteAt(rw, t.items[i], p[1..]);
          KeptFurther(rw, At(t.items[i], p[1..]), At(Rewrite(rw, t.items[i]), p[1..]), p, 1);
        }
    }
  }

  lemma KeptFurther(rw: Rewriter, a: Option<Json>, b: Option<Json>, p: seq<Step>, n: nat)
    requires rw.Valid() && n <= |p| && KeptAt(rw, a, b, p[n..])
    ensures KeptAt(rw, a, b, p)
  {
    if n < |p| && MayChange(p[n..]) {
      MayChangeTail(p, n);
    }
  }

  lemma {:induction false} FieldAt(rw: Rewriter, t: Json, k: string, p: seq<Step>)
    requires rw.Valid() && t.Obj? && k in t.fields && Visited(rw, t.fields[k], p)
    requires !(k == "S3Bucket" && TakesBucket(rw, t.fields))
    ensures KeptAt(rw, At(t.fields[k], p), At(RewriteField(rw, t, k), p), [Key(k)] + p)
    decreases |p|, 2
  {
    var v := t.fields[k];
    if (k == "S3Key" || k == "Fn::Sub") && v.Text? {
    } else if k == "Fn::Join" && IsJoin(v) {
      JoinAt(rw, v, p);
    } else {
      RewriteAt(rw, v, p);
      assert ([Key(k)] + p)[1..] == p;
      KeptFurther(rw, At(v, p), At(Rewrite(rw, v), p), [Key(k)] + p, 1);
    }
  }

  lemma {:induction false} JoinAt(rw: Rewriter, v: Json, p: seq<Step>)
    requires rw.Valid() && IsJoin(v) && Visited(rw, v, p)
    ensures var w := List([Rewrite(rw, v.items[0]), RewriteParts(rw, v.items[1])]);
            KeptAt(rw, At(v, p), At(w, p), [Key("Fn::Join")] + p)
    decreases |p|, 1
  {
    var q := [Key("Fn::Join")] + p;
    if p != [] && p[0] == Index(0) {
      RewriteAt(rw, v.items[0], p[1..]);
      assert q[2..] == p[1..];
      KeptFurther(rw, At(v.items[0], p[1..]), At(Rewrite(rw, v.items[0]), p[1..]), q, 2);
    } else if p != [] && p[0] == Index(1) {
      PartsAt(rw, v.items[1], p[1..]);
      assert q == [Key("Fn::Join"), Index(1)] + p[1..];
    }
  }

  lemma {:induction false} PartsAt(rw: Rewriter, parts: Json, p: seq<Step>)
    requires rw.Valid() && parts.List? && Visited(rw, parts, p)
    ensures KeptAt(rw, At(parts, p), At(RewriteParts(rw, parts), p), [Key("Fn::Join"), Index(1)] + p)
    decreases |p|, 1
  {
    var q := [Key("Fn::Join"), Index(1)] + p;
    if p != [] && p[0].Index? && p[0].index < |parts.items| {
      var part := parts.items[p[0].index];
      var w := RewriteParts(rw, parts).items[p[0].index];
      assert At(parts, p) == At(part, p[1..]) && At(RewriteParts(rw, parts), p) == At(w, p[1..]);
      if !part.Text? {
        RewriteAt(rw, part, p[1..]);
        assert q[3..] == p[1..];
        KeptFurther(rw, At(part, p[1..]), At(Rewrite(rw, part), p[1..]), q, 3);
      } else if |p| == 1 {
        assert q[|q| - 3] == Key("Fn::Join") && q[|q| - 2] == Index(1);
        assert MayChange(q);
      }
    }
  }

  // ---- What each place becomes ----

  /** A bucket is replaced beside a key that is mapped or already new, and beside no other. */
  lemma TakesBucketIff(rw: Rewriter, fields: map<string, Json>)
    ensures TakesBucket(rw, fields) <==>
              "S3Bucket" in fields && "S3Key" in fields && fields["S3Key"].Text? &&
              (fields["S3Key"].text in rw.keys.newKey ||
               exists k :: k in rw.keys.newKey && rw.keys.newKey[k] == fields["S3Key"].text)
  {
    if "S3Key" in fields && fields["S3Key"].Text? {
      var key := fields["S3Key"].text;
      assert key in rw.keys.newKey ==> rw.keys.newKey[key] in rw.keys.newKey.Values;
      assert key in rw.keys.newKey.Values <==> exists k :: k in rw.keys.newKey && rw.keys.newKey[k] == key;
    }
  }

  /** The place holds the list of segments of a join. */
  ghost predicate IsSegments(t: Json, p: seq<Step>) {
    && |p| >= 2 && p[|p| - 2] == Key("Fn::Join") && p[|p| - 1] == Index(1)
    && At(t, p[..|p| - 1]).Some? && At(t, p[..|p| - 1]).value.List?
    && var items := At(t, p[..|p| - 1]).value.items;
       |items| == 2 && items[1].List?
  }

  /** What the text at a place becomes. */
  ghost function NewText(rw: Rewriter, t: Json, p: seq<Step>, text: string): string
    requires rw.Valid()
  {
    if p == [] then text
    else if p[|p| - 1] == Key("S3Key") then if text in rw.keys.newKey then rw.keys.newKey[text] else text
    else if p[|p| - 1] == Key("Fn::Sub") then SubToolkit(text, rw.bucket)
    else if IsSegments(t, p[..|p| - 1]) then NewPart(rw, text)
    else text
  }

  /** What the subtree at a place becomes. */
  ghost function NewTree(rw: Rewriter, t: Json, p: seq<Step>): Json
    requires rw.Valid() && At(t, p).Some?
  {
    var v := At(t, p).value;
    if v.Text? then Text(NewText(rw, t, p, v.text))
    else if p != [] && p[|p| - 1] == Key("Fn::Join") && IsJoin(v)
    then List([Rewrite(rw, v.items[0]), RewriteParts(rw, v.items[1])])
    else if IsSegments(t, p) && v.List? then RewriteParts(rw, v)
    else Rewrite(rw, v)
  }

  lemma {:induction false} AtLast(t: Json, p: seq<Step>, s: Step)
    ensures At(t, p + [s]) == if At(t, p).None? then None else At(At(t, p).value, [s])
    decreases |p|
  {
    if p == [] {
      assert [] + [s] == [s];
    } else {
      assert (p + [s])[0] == p[0] && (p + [s])[1..] == p[1..] + [s];
      match p[0]
      case Key(k) => if t.Obj? && k in t.fields { AtLast(t.fields[k], p[1..], s); }
      case Index(i) => if t.List? && i < |t.items| { AtLast(t.items[i], p[1..], s); }
    }
  }

  lemma {:induction false} VisitedLast(rw: Rewriter, t: Json, p: seq<Step>, s: Step)
    ensures Visited(rw, t, p + [s]) <==> Visited(rw, t, p) && (At(t, p).Some? ==> Visited(rw, At(t, p).value, [s]))
    decreases |p|
  {
    if p == [] {
      assert [] + [s] == [s];
    } else {
      assert (p + [s])[0] == p[0] && (p + [s])[1..] == p[1..] + [s];
      match p[0]
      case Key(k) => if t.Obj? && k in t.fields { VisitedLast(rw, t.fields[k], p[1..], s); }
      case Index(i) => if t.List? && i < |t.items| { VisitedLast(rw, t.items[i], p[1..], s); }
    }
  }

  /** Outside replaced buckets every subtree is rewritten as its place says. */
  lemma {:induction false} RewrittenTree(rw: Rewriter, t: Json, p: seq<Step>)
    requires rw.Valid() && Visited(rw, t, p) && At(t, p).Some?
    ensures At(Rewrite(rw, t), p) == Some(NewTree(rw, t, p))
    decreases |p|
  {
    if p != [] {
      var q, s := p[..|p| - 1], p[|p| - 1];
      assert p == q + [s];
      AtLast(t, q, s);
      VisitedLast(rw, t, q, s);
      RewrittenTree(rw, t, q);
      AtLast(Rewrite(rw, t), q, s);
      if s.Key? {
        NewField(rw, t, q, s.key);
      } else {
        NewItem(rw, t, q, s.index);
      }
    }
  }

  lemma NewField(rw: Rewriter, t: Json, q: seq<Step>, k: string)
    requires rw.Valid() && At(t, q).Some? && Visited(rw, At(t, q).value, [Key(k)])
    requires At(t, q + [Key(k)]).Some? && At(t, q + [Key(k)]) == At(At(t, q).value, [Key(k)])
    ensures At(NewTree(rw, t, q), [Key(k)]) == Some(NewTree(rw, t, q + [Key(k)]))
  {
    var v := At(t, q).value;
    var p := q + [Key(k)];
    assert p[..|q|] == q && p[|p| - 1] == Key(k);
    AtOne(v, Key(k));
    AtOne(Rewrite(rw, v), Key(k));
    assert Rewrite(rw, v).fields[k] == RewriteField(rw, v, k);
    assert !IsSegments(t, p);
    if IsSegments(t, q) {
      SegmentsAreList(t, q);
    }
    assert !(k == "S3Bucket" && TakesBucket(rw, v.fields));
    assert At(NewTree(rw, t, q), [Key(k)]) == Some(RewriteField(rw, v, k));
    var x := v.fields[k];
    if x.Text? {
      assert RewriteField(rw, v, k) == Text(NewText(rw, t, p, x.text));
    } else if !(k == "Fn::Join" && IsJoin(x)) {
      assert RewriteField(rw, v, k) == Rewrite(rw, x);
    }
  }

  lemma SegmentsAreList(t: Json, p: seq<Step>)
    requires IsSegments(t, p)
    ensures At(t, p).Some? && At(t, p).value.List?
    ensures At(t, p) == Some(At(t, p[..|p| - 1]).value.items[1])
  {
    assert p == p[..|p| - 1] + [Index(1)];
    AtLast(t, p[..|p| - 1], Index(1));
    AtOne(At(t, p[..|p| - 1]).value, Index(1));
  }

  lemma NewItem(rw: Rewriter, t: Json, q: seq<Step>, i: nat)
    requires rw.Valid() && At(t, q).Some?
    requires At(t, q + [Index(i)]).Some? && At(t, q + [Index(i)]) == At(At(t, q).value, [Index(i)])
    ensures At(NewTree(rw, t, q), [Index(i)]) == Some(NewTree(rw, t, q + [Index(i)]))
  {
    var v := At(t, q).value;
    var p := q + [Index(i)];
    assert p[..|q|] == q && p[|p| - 1] == Index(i);
    AtOne(v, Index(i));
    AtOne(NewTree(rw, t, q), Index(i));
    assert IsSegments(t, p) <==> i == 1 && q != [] && q[|q| - 1] == Key("Fn::Join") && IsJoin(v);
    var x := v.items[i];
    if IsSegments(t, q) {
      assert q[|q| - 1] != Key("Fn::Join") && !IsSegments(t, p);
      assert NewTree(rw, t, q) == RewriteParts(rw, v);
      assert NewTree(rw, t, p) == if x.Text? then Text(NewPart(rw, x.text)) else Rewrite(rw, x);
    } else {
      assert x.Text? ==> NewTree(rw, t, p) == x;
      if q != [] && q[|q| - 1] == Key("Fn::Join") && IsJoin(v) {
        assert NewTree(rw, t, q) == List([Rewrite(rw, v.items[0]), RewriteParts(rw, v.items[1])]);
      } else {
        assert NewTree(rw, t, q) == Rewrite(rw, v) && Rewrite(rw, v).items[i] == Rewrite(rw, x);
        assert NewTree(rw, t, p) == Rewrite(rw, x);
      }
    }
  }

  lemma AtOne(t: Json, s: Step)
    ensures At(t, [s]) == match s
                          case Key(k) => if t.Obj? && k in t.fields then Some(t.fields[k]) else None
                          case Index(i) => if t.List? && i < |t.items| then Some(t.items[i]) else None
  {
    assert [s][1..] == [];
  }

  /** Every text outside replaced buckets: a mapped asset key becomes the new key, toolkit references in a
      substitution become the bucket, a segment of a join is rewritten by the deciding key, and nothing
      else changes. */
  lemma RewrittenText(rw: Rewriter, t: Json, p: seq<Step>)
    requires rw.Valid() && Visited(rw, t, p) && At(t, p).Some? && At(t, p).value.Text?
    ensures At(Rewrite(rw, t), p) == Some(Text(NewText(rw, t, p, At(t, p).value.text)))
  {
    RewrittenTree(rw, t, p);
  }

  /** The bucket of a visited object is replaced beside a key that is mapped or new; beside any other key
      a bucket that is a text stays. */
  lemma RewrittenBucket(rw: Rewriter, t: Json, p: seq<Step>)
    requires rw.Valid() && Visited(rw, t, p) && At(t, p).Some? && At(t, p).value.Obj?
    requires "S3Bucket" in At(t, p).value.fields
    ensures var fields := At(t, p).value.fields;
            At(Rewrite(rw, t), p + [Key("S3Bucket")]) ==
            if TakesBucket(rw, fields) then Some(Text(rw.bucket))
            else Some(Rewrite(rw, fields["S3Bucket"]))
    ensures var bucket := At(t, p).value.fields["S3Bucket"];
            bucket.Text? ==> Rewrite(rw, bucket) == bucket
  {
    RewriteAt(rw, t, p);
    AtLast(Rewrite(rw, t), p, Key("S3Bucket"));
    AtOne(At(Rewrite(rw, t), p).value, Key("S3Bucket"));
    assert Rewrite(rw, At(t, p).value).fields["S3Bucket"] == RewriteField(rw, At(t, p).value, "S3Bucket");
  }

  /** The run fails exactly when some visited object has a dictionary or list as its key. */
  lemma {:induction false} UnhashableIff(rw: Rewriter, t: Json)
    ensures Unhashable(rw, t) <==> exists p :: UnhashableAt(rw, t, p)
    decreases t
  {
    if Unhashable(rw, t) {
      var p := UnhashablePlace(rw, t);
    } else if p :| UnhashableAt(rw, t, p) {
      UnhashableThere(rw, t, p);
    }
  }

  ghost predicate UnhashableAt(rw: Rewriter, t: Json, p: seq<Step>) {
    && Visited(rw, t, p) && At(t, p).Some? && At(t, p).value.Obj? && "S3Key" in At(t, p).value.fields
    && (At(t, p).value.fields["S3Key"].Obj? || At(t, p).value.fields["S3Key"].List?)
  }

  lemma {:induction false} UnhashablePlace(rw: Rewriter, t: Json) returns (p: seq<Step>)
    requires Unhashable(rw, t)
    ensures UnhashableAt(rw, t, p)
    decreases t
  {
    p := [];
    if t.List? {
      var i :| 0 <= i < |t.items| && Unhashable(rw, t.items[i]);
      var q := UnhashablePlace(rw, t.items[i]);
      p := [Index(i)] + q;
      assert p[1..] == q;
    } else if !UnhashableAt(rw, t, []) {
      var k :| k in t.fields && !(k == "S3Bucket" && TakesBucket(rw, t.fields)) && Unhashable(rw, t.fields[k]);
      var q := UnhashablePlace(rw, t.fields[k]);
      p := [Key(k)] + q;
      assert p[1..] == q;
    }
  }

  lemma {:induction false} UnhashableThere(rw: Rewriter, t: Json, p: seq<Step>)
    requires UnhashableAt(rw, t, p)
    ensures Unhashable(rw, t)
    decreases |p|
  {
    if p != [] {
      match p[0]
      case Key(k) => UnhashableThere(rw, t.fields[k], p[1..]);
      case Index(i) => UnhashableThere(rw, t.items[i], p[1..]);
    }
  }

  /** The two bootstrap entries are gone and nothing else is. */
  lemma WithoutBootstrapMeaning(template: Json, q: Path)
    ensures if ["Parameters", "BootstrapVersion"] <= q || ["Rules", "CheckBootstrapVersion"] <= q
            then Get(WithoutBootstrap(template), q) == None
            else SameNode(Get(WithoutBootstrap(template), q), Get(template, q))
  {
    var once := Delete(template, ["Parameters", "BootstrapVersion"]);
    DeleteMeaning(template, ["Parameters", "BootstrapVersion"], q);
    DeleteMeaning(once, ["Rules", "CheckBootstrapVersion"], q);
  }

  // ---- Main result: asset references keep their content ----

  /** Every visited reference to a mapped key names the publishing bucket and the new key, under which
      the bucket holds what the toolkit bucket held under the old one. */
  lemma AssetReferencesPreserved(rw: Rewriter, t: Json, p: seq<Step>, oldKey: string, toolkit: map<string, Content>,
                                 store: map<string, Content>)
    requires rw.Valid() && Visited(rw, t, p)
    requires At(t, p).Some? && At(t, p).value.Obj?
    requires var fields := At(t, p).value.fields;
             "S3Bucket" in fields && "S3Key" in fields && fields["S3Key"] == Text(oldKey) && oldKey in rw.keys.newKey
    requires forall k | k in rw.keys.newKey ::
               k in toolkit && rw.keys.newKey[k] in store && store[rw.keys.newKey[k]] == toolkit[k]
    ensures var r := At(Rewrite(rw, t), p);
            && r.Some? && r.value.Obj? && "S3Bucket" in r.value.fields && "S3Key" in r.value.fields
            && r.value.fields["S3Bucket"] == Text(rw.bucket) && r.value.fields["S3Key"].Text?
            && r.value.fields["S3Key"].text in store
            && store[r.value.fields["S3Key"].text] == toolkit[oldKey]
  {
    RewriteAt(rw, t, p);
    var node := At(t, p).value;
    assert rw.keys.newKey[oldKey] in rw.keys.newKey.Values;
    assert Rewrite(rw, node).fields["S3Key"] == RewriteField(rw, node, "S3Key");
    assert Rewrite(rw, node).fields["S3Bucket"] == RewriteField(rw, node, "S3Bucket");
  }

  /** The keys and the store that the upload step leaves meet what the previous result asks for, when
      there is no clash. */
  lemma UploadFitsRewriting(before: map<string, Content>, assets: seq<FileAsset>, version: string, completed: seq<Task>,
                            keys: AssetKeys, toolkit: map<string, Content>)
    requires NoClash(before, assets, version) && IsCompletion(before, assets, version, completed)
    requires forall k :: k in keys.newKey <==> exists a :: IsUsable(assets, a) && a.OldKey() == k
    requires forall k | k in keys.newKey :: keys.newKey[k] == NewKey(version, k)
    requires forall a | IsUsable(assets, a) :: a.OldKey() in toolkit && toolkit[a.OldKey()] == a.content
    ensures var store := StoreAfter(before, completed);
            forall k | k in keys.newKey ::
              k in toolkit && keys.newKey[k] in store && store[keys.newKey[k]] == toolkit[k]
  {
    NoClashServes(before, assets, version, completed);
    forall k | k in keys.newKey
      ensures var store := StoreAfter(before, completed);
              k in toolkit && keys.newKey[k] in store && store[keys.newKey[k]] == toolkit[k]
    {
      var a :| IsUsable(assets, a) && a.OldKey() == k;
    }
  }
}
