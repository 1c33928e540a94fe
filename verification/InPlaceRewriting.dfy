/** The rewriting of a template as it is carried out: pass by pass in place, then into the children. */
module InPlaceRewriting {
  import opened JsonTrees
  import opened AssetTemplates
  import opened TemplateNodes
  import opened ToolkitBuckets

  // ---- What each pass does to the object it looks at ----

  ghost function KeyPassed(rw: Rewriter, t: Json): Json
    requires t.Obj?
  {
    if "S3Key" in t.fields then Put(t, Key("S3Key"), NewS3Key(rw, t.fields["S3Key"])) else t
  }

  ghost function BucketPassed(rw: Rewriter, t: Json): Json
    requires t.Obj?
  {
    if "S3Bucket" in t.fields && "S3Key" in t.fields && t.fields["S3Key"].Text? &&
       t.fields["S3Key"].text in rw.keys.newKey.Values
    then Put(t, Key("S3Bucket"), Text(rw.bucket)) else t
  }

  ghost function SubPassed(rw: Rewriter, t: Json): Json
    requires t.Obj?
  {
    if "Fn::Sub" in t.fields && t.fields["Fn::Sub"].Text?
    then Put(t, Key("Fn::Sub"), Text(SubToolkit(t.fields["Fn::Sub"].text, rw.bucket))) else t
  }

  ghost function JoinPassed(rw: Rewriter, t: Json): Json
    requires rw.Valid() && t.Obj?
  {
    if "Fn::Join" in t.fields && IsJoin(t.fields["Fn::Join"])
    then Put(t, Key("Fn::Join"), JoinRewritten(rw, t.fields["Fn::Join"])) else t
  }

  ghost function JoinRewritten(rw: Rewriter, v: Json): Json
    requires rw.Valid() && IsJoin(v)
  {
    Put(v, Index(1), PartsRewritten(rw, v.items[1]))
  }

  ghost function PartsRewritten(rw: Rewriter, parts: Json): (r: Json)
    requires rw.Valid() && parts.List?
    ensures r.List? && |r.items| == |parts.items|
  {
    List(seq(|parts.items|, i requires 0 <= i < |parts.items| => PartRewritten(rw, parts.items[i])))
  }

  ghost function PartRewritten(rw: Rewriter, part: Json): Json
    requires rw.Valid()
  {
    if part.Text? then Text(NewPart(rw, part.text)) else part
  }

  ghost function AllPassed(rw: Rewriter, t: Json): (r: Json)
    requires rw.Valid() && t.Obj?
    ensures r.Obj? && r.fields.Keys == t.fields.Keys
  {
    JoinPassed(rw, SubPassed(rw, BucketPassed(rw, KeyPassed(rw, t))))
  }

  // ---- Descending after the passes is the rewriting ----

  lemma JoinThenDescend(rw: Rewriter, v: Json)
    requires rw.Valid() && IsJoin(v)
    ensures Rewrite(rw, JoinRewritten(rw, v)) == List([Rewrite(rw, v.items[0]), RewriteParts(rw, v.items[1])])
    ensures Unhashable(rw, JoinRewritten(rw, v)) <==> Unhashable(rw, v)
  {
    var w := JoinRewritten(rw, v);
    var parts, parts' := v.items[1], PartsRewritten(rw, v.items[1]);
    assert w.items == [v.items[0], parts'];
    forall i | 0 <= i < |parts.items|
      ensures Rewrite(rw, parts').items[i] == RewriteParts(rw, parts).items[i]
      ensures Unhashable(rw, parts'.items[i]) <==> Unhashable(rw, parts.items[i])
    {
      assert parts'.items[i] == PartRewritten(rw, parts.items[i]);
    }
    assert Rewrite(rw, parts') == RewriteParts(rw, parts);
    assert Unhashable(rw, parts') <==> Unhashable(rw, parts);
    assert Unhashable(rw, v) <==> Unhashable(rw, v.items[0]) || Unhashable(rw, parts);
    assert Unhashable(rw, w) <==> Unhashable(rw, w.items[0]) || Unhashable(rw, w.items[1]);
  }

  /** What the passes together make of one field. */
  ghost function FieldPassed(rw: Rewriter, t: Json, k: string): Json
    requires rw.Valid() && t.Obj? && k in t.fields
  {
    var v := t.fields[k];
    if k == "S3Key" then NewS3Key(rw, v)
    else if k == "S3Bucket" && TakesBucket(rw, t.fields) then Text(rw.bucket)
    else if k == "Fn::Sub" && v.Text? then Text(SubToolkit(v.text, rw.bucket))
    else if k == "Fn::Join" && IsJoin(v) then JoinRewritten(rw, v)
    else v
  }

  lemma PassesByField(rw: Rewriter, t: Json, k: string)
    requires rw.Valid() && t.Obj? && k in t.fields
    ensures AllPassed(rw, t).fields[k] == FieldPassed(rw, t, k)
  {
    var a := KeyPassed(rw, t);
    var b := BucketPassed(rw, a);
    var c := SubPassed(rw, b);
    assert b.fields[k] == if k == "S3Bucket" && TakesBucket(rw, t.fields) then Text(rw.bucket) else a.fields[k];
    assert c.fields[k] == if k == "Fn::Sub" && b.fields[k].Text? then Text(SubToolkit(b.fields[k].text, rw.bucket))
                          else b.fields[k];
  }

  lemma FieldThenDescend(rw: Rewriter, t: Json, k: string)
    requires rw.Valid() && t.Obj? && k in t.fields
    ensures Rewrite(rw, AllPassed(rw, t).fields[k]) == RewriteField(rw, t, k)
    ensures Unhashable(rw, AllPassed(rw, t).fields[k]) <==>
              !(k == "S3Bucket" && TakesBucket(rw, t.fields)) && Unhashable(rw, t.fields[k])
  {
    PassesByField(rw, t, k);
    if k == "Fn::Join" && IsJoin(t.fields[k]) {
      JoinThenDescend(rw, t.fields[k]);
    }
  }

  lemma DescendingRewrites(rw: Rewriter, t: Json, r: Json)
    requires rw.Valid() && t.Obj? && r.Obj? && r.fields.Keys == t.fields.Keys
    requires forall k | k in t.fields :: r.fields[k] == Rewrite(rw, AllPassed(rw, t).fields[k])
    ensures r == Rewrite(rw, t)
  {
    forall k | k in t.fields ensures r.fields[k] == Rewrite(rw, t).fields[k] {
      FieldThenDescend(rw, t, k);
    }
    assert r.fields == Rewrite(rw, t).fields;
  }

  ghost predicate UnhashableBelow(rw: Rewriter, t: Json) {
    match t
    case Obj(fields) => exists k :: k in fields && Unhashable(rw, fields[k])
    case List(items) => exists i :: 0 <= i < |items| && Unhashable(rw, items[i])
    case _ => false
  }

  ghost predicate BadKey(t: Json)
    requires t.Obj?
  {
    "S3Key" in t.fields && (t.fields["S3Key"].Obj? || t.fields["S3Key"].List?)
  }

  lemma UnhashableAfterPasses(rw: Rewriter, t: Json)
    requires rw.Valid() && t.Obj?
    ensures Unhashable(rw, t) <==> BadKey(t) || UnhashableBelow(rw, AllPassed(rw, t))
  {
    forall k | k in t.fields
      ensures Unhashable(rw, AllPassed(rw, t).fields[k]) <==>
                !(k == "S3Bucket" && TakesBucket(rw, t.fields)) && Unhashable(rw, t.fields[k])
    {
      FieldThenDescend(rw, t, k);
    }
  }

  // ---- The passes, in place ----

  /** A dictionary or list cannot be looked up in the map of keys. */
  method KeyPass(rw: Rewriter, node: TemplateNode) returns (ok: bool)
    requires node.Valid() && node.shape.Dict?
    modifies node`shape
    ensures ok <==> !BadKey(old(node.Tree()))
    ensures ok ==> node.Valid() && node.Tree() == KeyPassed(rw, old(node.Tree())) && node.shape.Dict?
  {
    if "S3Key" in node.shape.entries {
      var v := node.shape.entries["S3Key"];
      assert node.Has(Key("S3Key")) && node.Tree().fields["S3Key"] == node.TreeAt(Key("S3Key"));
      if v.Child? {
        return false;
      }
      node.Assign(Key("S3Key"), NewS3Key(rw, v.json));
    }
    return true;
  }

  method BucketPass(rw: Rewriter, node: TemplateNode)
    requires node.Valid() && node.shape.Dict?
    modifies node`shape
    ensures node.Valid() && node.Tree() == BucketPassed(rw, old(node.Tree())) && node.shape.Dict?
  {
    if "S3Bucket" in node.shape.entries && "S3Key" in node.shape.entries {
      var v := node.shape.entries["S3Key"];
      assert node.Has(Key("S3Key")) && node.Tree().fields["S3Key"] == node.TreeAt(Key("S3Key"));
      if v.Value? && v.json.Text? && v.json.text in rw.keys.newKey.Values {
        node.Assign(Key("S3Bucket"), Text(rw.bucket));
      }
    }
  }

  method SubPass(rw: Rewriter, node: TemplateNode)
    requires node.Valid() && node.shape.Dict?
    modifies node`shape
    ensures node.Valid() && node.Tree() == SubPassed(rw, old(node.Tree())) && node.shape.Dict?
  {
    if "Fn::Sub" in node.shape.entries {
      var v := node.shape.entries["Fn::Sub"];
      assert node.Has(Key("Fn::Sub")) && node.Tree().fields["Fn::Sub"] == node.TreeAt(Key("Fn::Sub"));
      if v.Value? && v.json.Text? {
        node.Assign(Key("Fn::Sub"), Text(SubToolkit(v.json.text, rw.bucket)));
      }
    }
  }

  method PartsPass(rw: Rewriter, parts: TemplateNode)
    requires rw.Valid() && parts.Valid() && parts.shape.Items?
    modifies parts`shape
    ensures parts.Valid() && parts.Tree() == PartsRewritten(rw, old(parts.Tree()))
  {
    ghost var t := parts.Tree();
    for i := 0 to |parts.shape.items|
      invariant parts.Valid() && parts.shape.Items? && |parts.shape.items| == |t.items|
      invariant forall j | 0 <= j < |t.items| ::
                  parts.Tree().items[j] == if j < i then PartRewritten(rw, t.items[j]) else t.items[j]
    {
      var part := parts.shape.items[i];
      assert parts.Has(Index(i)) && parts.Tree().items[i] == parts.TreeAt(Index(i));
      if part.Value? && part.json.Text? {
        var r := RewritePart(rw, part.json.text);
        parts.Assign(Index(i), Text(r));
      }
    }
    assert parts.Tree().items == PartsRewritten(rw, t).items;
  }

  method JoinPass(rw: Rewriter, node: TemplateNode)
    requires rw.Valid() && node.Valid() && node.shape.Dict?
    modifies node.repr
    ensures node.Valid() && node.Tree() == JoinPassed(rw, old(node.Tree())) && node.shape == old(node.shape)
  {
    if "Fn::Join" in node.shape.entries {
      var v := node.shape.entries["Fn::Join"];
      assert node.Has(Key("Fn::Join")) && node.Tree().fields["Fn::Join"] == node.TreeAt(Key("Fn::Join"));
      if v.Child? && v.node.shape.Items? && |v.node.shape.items| == 2 {
        JoinPartsPass(rw, node, v.node);
      }
    }
  }

  method JoinPartsPass(rw: Rewriter, node: TemplateNode, join: TemplateNode)
    requires rw.Valid() && node.Valid() && node.Has(Key("Fn::Join")) && node.SlotAt(Key("Fn::Join")) == Child(join)
    requires join.shape.Items? && |join.shape.items| == 2
    modifies node.repr
    ensures node.Valid() && node.Tree() == JoinPassed(rw, old(node.Tree())) && node.shape == old(node.shape)
  {
    var part := join.shape.items[1];
    assert join.Valid() && join.Has(Index(1)) && join.Tree().items[1] == join.TreeAt(Index(1));
    assert node.Tree().fields["Fn::Join"] == node.TreeAt(Key("Fn::Join")) == join.Tree();
    if part.Child? && part.node.shape.Items? {
      label Before:
      PartsPass(rw, part.node);
      join.Changed@Before(Index(1));
      node.Changed@Before(Key("Fn::Join"));
    }
  }

  method ApplyPasses(rw: Rewriter, node: TemplateNode) returns (ok: bool)
    requires rw.Valid() && node.Valid() && node.shape.Dict?
    modifies node.repr
    ensures ok <==> !BadKey(old(node.Tree()))
    ensures ok ==> node.Valid() && node.Tree() == AllPassed(rw, old(node.Tree())) && node.shape.Dict?
  {
    ok := KeyPass(rw, node);
    if ok {
      BucketPass(rw, node);
      SubPass(rw, node);
      JoinPass(rw, node);
    }
  }

  // ---- rewrite_obj ----

  lemma PutSame(t: Json, s: Step, v: Json)
    requires match s
             case Key(k) => t.Obj? && k in t.fields && t.fields[k] == v
             case Index(i) => t.List? && i < |t.items| && t.items[i] == v
    ensures Put(t, s, v) == t
  {
    match s
    case Key(k) => assert t.fields[k := v] == t.fields;
    case Index(i) => assert t.items[i := v] == t.items;
  }

  /** One recursive call: on anything but a dictionary or list it does nothing. */
  method RewriteSlot(rw: Rewriter, node: TemplateNode, s: Step) returns (ok: bool)
    requires rw.Valid() && node.Valid() && node.Has(s)
    modifies node.PartAt(s)
    ensures node.shape == old(node.shape)
    ensures ok <==> !Unhashable(rw, old(node.TreeAt(s)))
    ensures ok ==> node.Valid() && node.Tree() == Put(old(node.Tree()), s, Rewrite(rw, old(node.TreeAt(s))))
    decreases node.repr, 0
  {
    var slot := node.SlotAt(s);
    assert node.Owns(s);
    label Before:
    match slot {
      case Value(j) =>
        assert node.TreeAt(s) == j;
        PutSame(node.Tree(), s, j);
        ok := true;
      case Child(child) =>
        ok := RewriteNode(rw, child);
        if ok {
          node.Changed@Before(s);
        }
    }
  }

  /** All fields but those in `left` are rewritten. */
  ghost predicate Descended(rw: Rewriter, t: Json, u: Json, left: set<string>)
    requires rw.Valid() && t.Obj?
  {
    && u.Obj? && u.fields.Keys == t.fields.Keys
    && (forall k | k in t.fields :: u.fields[k] == if k in left then t.fields[k] else Rewrite(rw, t.fields[k]))
    && (forall k | k in t.fields && k !in left :: !Unhashable(rw, t.fields[k]))
  }

  lemma DescendedNext(rw: Rewriter, t: Json, u: Json, left: set<string>, k: string)
    requires rw.Valid() && t.Obj? && Descended(rw, t, u, left)
    requires k in left && k in t.fields && !Unhashable(rw, t.fields[k])
    ensures Descended(rw, t, Put(u, Key(k), Rewrite(rw, u.fields[k])), left - {k})
  {
  }

  method RewriteValues(rw: Rewriter, node: TemplateNode) returns (ok: bool)
    requires rw.Valid() && node.Valid() && node.shape.Dict?
    modifies node.repr
    ensures ok <==> !UnhashableBelow(rw, old(node.Tree()))
    ensures ok ==> node.Valid() && node.Tree().Obj? && node.Tree().fields.Keys == old(node.Tree()).fields.Keys
    ensures ok ==> forall k | k in node.Tree().fields ::
              node.Tree().fields[k] == Rewrite(rw, old(node.Tree()).fields[k])
    decreases node.repr, 1
  {
    ghost var t := node.Tree();
    var left := node.shape.entries.Keys;
    while left != {}
      invariant node.Valid() && node.shape == old(node.shape) && left <= t.fields.Keys
      invariant Descended(rw, t, node.Tree(), left)
    {
      var k :| k in left;
      assert node.Has(Key(k)) && node.Tree().fields[k] == node.TreeAt(Key(k));
      ghost var before := node.Tree();
      ok := RewriteSlot(rw, node, Key(k));
      if !ok {
        return;
      }
      DescendedNext(rw, t, before, left, k);
      left := left - {k};
    }
    ok := true;
  }

  method RewriteItems(rw: Rewriter, node: TemplateNode) returns (ok: bool)
    requires rw.Valid() && node.Valid() && node.shape.Items?
    modifies node.repr
    ensures ok <==> !UnhashableBelow(rw, old(node.Tree()))
    ensures ok ==> node.Valid() && node.Tree() == Rewrite(rw, old(node.Tree()))
    decreases node.repr, 1
  {
    ghost var t := node.Tree();
    for i := 0 to |node.shape.items|
      invariant node.Valid() && node.shape == old(node.shape)
      invariant forall j | 0 <= j < |t.items| ::
                  node.Tree().items[j] == if j < i then Rewrite(rw, t.items[j]) else t.items[j]
      invariant forall j | 0 <= j < i :: !Unhashable(rw, t.items[j])
    {
      assert node.Has(Index(i)) && node.Tree().items[i] == node.TreeAt(Index(i));
      ok := RewriteSlot(rw, node, Index(i));
      if !ok {
        return;
      }
    }
    assert node.Tree().items == Rewrite(rw, t).items;
    ok := true;
  }

  /** The recursive rewriting of a dictionary or list; `false` when it raises. */
  method RewriteNode(rw: Rewriter, node: TemplateNode) returns (ok: bool)
    requires rw.Valid() && node.Valid()
    modifies node.repr
    ensures ok <==> !Unhashable(rw, old(node.Tree()))
    ensures ok ==> node.Valid() && node.Tree() == Rewrite(rw, old(node.Tree()))
    decreases node.repr, 2
  {
    ghost var t := node.Tree();
    if node.shape.Items? {
      ok := RewriteItems(rw, node);
    } else {
      UnhashableAfterPasses(rw, t);
      ok := ApplyPasses(rw, node);
      if ok {
        ok := RewriteValues(rw, node);
        if ok {
          DescendingRewrites(rw, t, node.Tree());
        }
      }
    }
  }

  // ---- The whole file ----

  /** `del template[outer][inner]`, when it is there. */
  method DropNested(template: TemplateNode, outer: string, inner: string)
    requires template.Valid()
    modifies template.repr
    ensures template.Valid() && template.Tree() == Delete(old(template.Tree()), [outer, inner])
  {
    if template.shape.Dict? && outer in template.shape.entries {
      var v := template.shape.entries[outer];
      assert template.Has(Key(outer)) && template.Tree().fields[outer] == template.TreeAt(Key(outer));
      assert [outer, inner][1..] == [inner];
      if v.Child? && v.node.shape.Dict? && inner in v.node.shape.entries {
        label Before:
        v.node.Remove(inner);
        template.Changed@Before(Key(outer));
      } else {
        assert template.Tree().fields[outer := template.Tree().fields[outer]] == template.Tree().fields;
      }
    }
  }

  method RewriteTemplate(rw: Rewriter, template: TemplateNode) returns (ok: bool)
    requires rw.Valid() && template.Valid()
    modifies template.repr
    ensures ok <==> !Unhashable(rw, WithoutBootstrap(old(template.Tree())))
    ensures ok ==> template.Valid() && template.Tree() == Rewrite(rw, WithoutBootstrap(old(template.Tree())))
  {
    DropNested(template, "Parameters", "BootstrapVersion");
    DropNested(template, "Rules", "CheckBootstrapVersion");
    ok := RewriteNode(rw, template);
  }
}
