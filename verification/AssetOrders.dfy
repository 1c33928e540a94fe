/** How the rewritten template depends on the order in which the uploads complete. */
module AssetOrders {
  import opened Results
  import opened Ordering
  import opened JsonTrees
  import opened TextEdits
  import opened AssetUpload
  import opened AssetTemplates
  import opened AssetReruns

  // ---- The order of the keys ----

  /** All keys the segment mentions would rewrite it to the same text. */
  ghost predicate Unambiguous(newKey: map<string, string>, part: string)
    requires "" !in newKey
  {
    forall j, k | j in newKey && k in newKey && Contains(part, j) && Contains(part, k) ::
      Replace(part, j, newKey[j]) == Replace(part, k, newKey[k])
  }

  /** The order lists every key of the map once. */
  ghost predicate Lists(order: seq<string>, newKey: map<string, string>) {
    && (forall k :: k in order <==> k in newKey)
    && (forall i, j | 0 <= i < j < |order| :: order[i] != order[j])
  }

  function Ordered(rw: Rewriter, order: seq<string>): Rewriter {
    rw.(keys := AssetKeys(order, rw.keys.newKey))
  }

  /** An order in which a mentioned key decides. */
  lemma DecidingOrder(newKey: map<string, string>, part: string, k: string) returns (order: seq<string>)
    requires k in newKey && Contains(part, k)
    ensures Lists(order, newKey) && LastMentioned(order, part) == Some(k)
  {
    var front := SortedIds(newKey.Keys - {k});
    order := front + [k];
    assert order[..|order| - 1] == front;
  }

  /** Whatever the order, a segment becomes the same text, if and only if it is unambiguous. */
  lemma SegmentOrderFreeIff(rw: Rewriter, part: string)
    requires rw.Valid()
    ensures (forall order | Lists(order, rw.keys.newKey) :: NewPart(Ordered(rw, order), part) == NewPart(rw, part)) <==>
            Unambiguous(rw.keys.newKey, part)
  {
    var m := rw.keys.newKey;
    if Unambiguous(m, part) {
      forall order | Lists(order, m) ensures NewPart(Ordered(rw, order), part) == NewPart(rw, part) {
        SameDecision(rw, order, part);
      }
    } else {
      var j, k :| j in m && k in m && Contains(part, j) && Contains(part, k) &&
        Replace(part, j, m[j]) != Replace(part, k, m[k]);
      var o := DecidedBy(rw, part, j);
      var o' := DecidedBy(rw, part, k);
    }
  }

  lemma DecidedBy(rw: Rewriter, part: string, k: string) returns (order: seq<string>)
    requires rw.Valid() && k in rw.keys.newKey && Contains(part, k)
    ensures Lists(order, rw.keys.newKey)
    ensures NewPart(Ordered(rw, order), part) == Replace(part, k, rw.keys.newKey[k])
  {
    order := DecidingOrder(rw.keys.newKey, part, k);
  }

  lemma SameDecision(rw: Rewriter, order: seq<string>, part: string)
    requires rw.Valid() && Lists(order, rw.keys.newKey) && Unambiguous(rw.keys.newKey, part)
    ensures NewPart(Ordered(rw, order), part) == NewPart(rw, part)
  {
    var a, b := LastMentioned(order, part), LastMentioned(rw.keys.order, part);
    if a.Some? {
      assert a.value in rw.keys.newKey;
    }
    if b.Some? {
      assert b.value in rw.keys.newKey;
    }
  }

  ghost predicate SameSpots(rw: Rewriter, rw': Rewriter, spots: set<Spot>)
    requires rw.Valid() && rw'.Valid()
  {
    forall s | s in spots && s.Segment? :: NewPart(rw, s.text) == NewPart(rw', s.text)
  }

  lemma {:induction false} FieldInOrder(rw: Rewriter, order: seq<string>, t: Json, k: string)
    requires rw.Valid() && Lists(order, rw.keys.newKey) && t.Obj? && k in t.fields
    ensures RewriteField(Ordered(rw, order), t, k) == RewriteField(rw, t, k) <==>
            SameSpots(Ordered(rw, order), rw, FieldSpots(rw, t, k))
    decreases t, 0
  {
    var v := t.fields[k];
    if k == "S3Key" && v.Text? {
    } else if k == "S3Bucket" && TakesBucket(rw, t.fields) {
    } else if k == "Fn::Sub" && v.Text? {
    } else if k == "Fn::Join" && IsJoin(v) {
      RewriteInOrder(rw, order, v.items[0]);
      PartsInOrder(rw, order, v.items[1]);
      JoinSpots(rw, v);
    } else {
      RewriteInOrder(rw, order, v);
    }
  }

  lemma {:induction false} PartsInOrder(rw: Rewriter, order: seq<string>, parts: Json)
    requires rw.Valid() && Lists(order, rw.keys.newKey) && parts.List?
    ensures RewriteParts(Ordered(rw, order), parts) == RewriteParts(rw, parts) <==>
            SameSpots(Ordered(rw, order), rw, Segments(parts.items) + Spots(rw, parts))
    decreases parts, 1
  {
    var a, b := RewriteParts(Ordered(rw, order), parts), RewriteParts(rw, parts);
    forall i | 0 <= i < |parts.items|
      ensures a.items[i] == b.items[i] <==> SameSpots(Ordered(rw, order), rw, PartSpots(rw, parts.items[i]))
    {
      if parts.items[i].Text? {
        assert Segment(parts.items[i].text) in PartSpots(rw, parts.items[i]);
      } else {
        RewriteInOrder(rw, order, parts.items[i]);
      }
    }
    PartsSpots(rw, parts);
    assert a == b <==> forall i | 0 <= i < |parts.items| :: a.items[i] == b.items[i];
  }

  /** Two orders rewrite a template alike exactly when they rewrite each visited segment alike. */
  lemma {:induction false} RewriteInOrder(rw: Rewriter, order: seq<string>, t: Json)
    requires rw.Valid() && Lists(order, rw.keys.newKey)
    ensures Rewrite(Ordered(rw, order), t) == Rewrite(rw, t) <==> SameSpots(Ordered(rw, order), rw, Spots(rw, t))
    decreases t, 1
  {
    var a, b := Rewrite(Ordered(rw, order), t), Rewrite(rw, t);
    match t
    case Obj(fields) =>
      forall k | k in fields
        ensures a.fields[k] == b.fields[k] <==> SameSpots(Ordered(rw, order), rw, FieldSpots(rw, t, k))
      {
        FieldInOrder(rw, order, t, k);
      }
      assert a == b <==> forall k | k in fields :: a.fields[k] == b.fields[k];
    case List(items) =>
      forall i | 0 <= i < |items|
        ensures a.items[i] == b.items[i] <==> SameSpots(Ordered(rw, order), rw, Spots(rw, items[i]))
      {
        RewriteInOrder(rw, order, items[i]);
      }
      assert a == b <==> forall i | 0 <= i < |items| :: a.items[i] == b.items[i];
    case _ =>
  }

  // ---- Main result: the order of the uploads ----

  /** All uploaded keys the segment mentions would rewrite it to the same text. */
  ghost predicate UnambiguousUploads(newKey: map<string, string>, tasks: seq<Task>, part: string)
    requires "" !in newKey
  {
    forall j, k | j in newKey && k in newKey && Completed(tasks, j) && Completed(tasks, k) &&
                  Contains(part, j) && Contains(part, k) ::
      Replace(part, j, newKey[j]) == Replace(part, k, newKey[k])
  }

  /** Keys and tasks as planned: what is uploaded was not recorded before, and a key has one new key. */
  ghost predicate Planned(planned: AssetKeys, tasks: seq<Task>) {
    && planned.Valid() && "" !in planned.newKey
    && (forall t | t in tasks :: t.oldKey !in planned.newKey && t.oldKey != "")
    && (forall t, u | t in tasks && u in tasks && t.oldKey == u.oldKey :: t.newKey == u.newKey)
  }

  ghost predicate SameTasks(a: seq<Task>, b: seq<Task>) {
    multiset(a) == multiset(b)
  }

  lemma SameTasksMembers(a: seq<Task>, b: seq<Task>)
    requires SameTasks(a, b)
    ensures forall t :: t in a <==> t in b
    ensures forall k :: Completed(a, k) <==> Completed(b, k)
    ensures forall k, v :: CompletedAs(a, k, v) <==> CompletedAs(b, k, v)
  {
    forall t ensures t in a <==> t in b {
      assert t in multiset(a) <==> t in multiset(b);
    }
  }

  lemma NoEmptyKey(planned: AssetKeys, tasks: seq<Task>, completed: seq<Task>)
    requires Planned(planned, tasks) && forall t | t in completed :: t in tasks
    ensures KeysAfter(planned, completed).Valid() && "" !in KeysAfter(planned, completed).newKey
  {
    KeysAfterMeaning(planned, completed);
  }

  /** What a key is mapped to depends on the tasks only. */
  lemma MappedAs(planned: AssetKeys, tasks: seq<Task>, completed: seq<Task>, k: string)
    requires Planned(planned, tasks) && forall t :: t in completed <==> t in tasks
    ensures var m := KeysAfter(planned, completed).newKey;
            && (k in m <==> k in planned.newKey || Completed(tasks, k))
            && (k in planned.newKey ==> m[k] == planned.newKey[k])
            && (forall t | t in tasks && t.oldKey == k :: m[k] == t.newKey)
  {
    KeysAfterMeaning(planned, completed);
  }

  /** Every completion order records the same keys. */
  lemma CompletionsRecordAlike(planned: AssetKeys, tasks: seq<Task>, completed: seq<Task>)
    requires Planned(planned, tasks) && SameTasks(completed, tasks)
    ensures KeysAfter(planned, completed).Valid() && "" !in KeysAfter(planned, completed).newKey
    ensures KeysAfter(planned, completed).newKey == KeysAfter(planned, tasks).newKey
  {
    SameTasksMembers(completed, tasks);
    NoEmptyKey(planned, tasks, completed);
    var a, b := KeysAfter(planned, completed).newKey, KeysAfter(planned, tasks).newKey;
    forall k ensures k in a <==> k in b
             ensures k in a && k in b ==> a[k] == b[k] {
      MappedAs(planned, tasks, completed, k);
      MappedAs(planned, tasks, tasks, k);
    }
    assert a == b;
  }

  ghost predicate MentionsUpload(tasks: seq<Task>, part: string) {
    exists k :: Completed(tasks, k) && Contains(part, k)
  }

  /** An uploaded key decides when the segment mentions one; otherwise what was recorded before decides. */
  lemma {:induction false} UploadsDecide(planned: AssetKeys, completed: seq<Task>, part: string)
    requires planned.Valid() && forall t | t in completed :: t.oldKey !in planned.newKey
    ensures var last := LastMentioned(KeysAfter(planned, completed).order, part);
            if MentionsUpload(completed, part) then last.Some? && Completed(completed, last.value)
            else last == LastMentioned(planned.order, part)
    decreases |completed|
  {
    if completed != [] {
      var front, t := completed[..|completed| - 1], completed[|completed| - 1];
      UploadsDecide(planned, front, part);
      CompletedOneMore(completed);
      KeysAfterMeaning(planned, front);
      assert t in completed;
      NextUploadDecides(KeysAfter(planned, front), t, part);
    }
  }

  /** A key that is recorded for the first time comes last. */
  lemma NextUploadDecides(keys: AssetKeys, t: Task, part: string)
    ensures LastMentioned(keys.Put(t.oldKey, t.newKey).order, part) ==
            if t.oldKey !in keys.newKey && Contains(part, t.oldKey) then Some(t.oldKey)
            else LastMentioned(keys.order, part)
  {
    assert (keys.order + [t.oldKey])[..|keys.order|] == keys.order;
  }

  lemma CompletedOneMore(completed: seq<Task>)
    requires completed != []
    ensures var front, t := completed[..|completed| - 1], completed[|completed| - 1];
            forall k :: Completed(completed, k) <==> Completed(front, k) || k == t.oldKey
  {
    var front, t := completed[..|completed| - 1], completed[|completed| - 1];
    assert completed == front + [t];
    forall k ensures Completed(completed, k) <==> Completed(front, k) || k == t.oldKey {
      if Completed(front, k) {
        var u :| u in front && u.oldKey == k;
        assert u in completed;
      }
    }
  }

  /** The tasks of all other keys first, then those of `k`. */
  function KeyLast(tasks: seq<Task>, k: string): (completed: seq<Task>) {
    OtherTasks(tasks, k) + TasksOf(tasks, k)
  }

  function OtherTasks(tasks: seq<Task>, k: string): (r: seq<Task>)
    ensures forall t :: t in r <==> t in tasks && t.oldKey != k
  {
    Filter(tasks, (t: Task) => t.oldKey != k)
  }

  function TasksOf(tasks: seq<Task>, k: string): (r: seq<Task>)
    ensures forall t :: t in r <==> t in tasks && t.oldKey == k
  {
    Filter(tasks, (t: Task) => t.oldKey == k)
  }

  lemma {:induction false} KeyLastIsCompletion(tasks: seq<Task>, k: string)
    ensures SameTasks(KeyLast(tasks, k), tasks)
    decreases |tasks|
  {
    if tasks != [] {
      KeyLastIsCompletion(tasks[1..], k);
      assert tasks == [tasks[0]] + tasks[1..];
    }
  }

  /** Completing the tasks of one key adds it once, at the end. */
  lemma {:induction false} OneKeyRecorded(keys: AssetKeys, tasks: seq<Task>, k: string)
    requires tasks != [] && k !in keys.newKey && forall t | t in tasks :: t.oldKey == k
    ensures k in KeysAfter(keys, tasks).newKey && KeysAfter(keys, tasks).order == keys.order + [k]
    decreases |tasks|
  {
    var front, last := tasks[..|tasks| - 1], tasks[|tasks| - 1];
    assert last in tasks;
    if front != [] {
      OneKeyRecorded(keys, front, k);
    }
  }

  lemma {:induction false} KeysAfterBoth(keys: AssetKeys, a: seq<Task>, b: seq<Task>)
    ensures KeysAfter(keys, a + b) == KeysAfter(KeysAfter(keys, a), b)
    decreases |b|
  {
    if b == [] {
      assert a + b == a;
    } else {
      KeysAfterBoth(keys, a, b[..|b| - 1]);
      assert (a + b)[..|a + b| - 1] == a + b[..|b| - 1];
    }
  }

  /** A mentioned uploaded key decides in some completion order. */
  lemma KeyLastDecides(planned: AssetKeys, tasks: seq<Task>, k: string, part: string)
    requires Planned(planned, tasks) && Completed(tasks, k) && Contains(part, k)
    ensures LastMentioned(KeysAfter(planned, KeyLast(tasks, k)).order, part) == Some(k)
  {
    var others, own := OtherTasks(tasks, k), TasksOf(tasks, k);
    var keys := KeysAfter(planned, others);
    KeysAfterBoth(planned, others, own);
    KeysAfterMeaning(planned, others);
    var t :| t in tasks && t.oldKey == k;
    assert t in own;
    OneKeyRecorded(keys, own, k);
    assert (keys.order + [k])[..|keys.order|] == keys.order;
  }

  /** The map from old to new keys, whatever the completion order. */
  ghost function NewKeys(planned: AssetKeys, tasks: seq<Task>): (m: map<string, string>)
    requires Planned(planned, tasks)
    ensures "" !in m && forall k | Completed(tasks, k) :: k in m
  {
    CompletionsRecordAlike(planned, tasks, tasks);
    KeysAfterMeaning(planned, tasks);
    KeysAfter(planned, tasks).newKey
  }

  /** The rewriter after the tasks complete in this order. */
  ghost function After(planned: AssetKeys, tasks: seq<Task>, completed: seq<Task>, bucket: string): (rw: Rewriter)
    requires Planned(planned, tasks) && SameTasks(completed, tasks)
    ensures rw.Valid() && rw.keys.newKey == NewKeys(planned, tasks)
  {
    CompletionsRecordAlike(planned, tasks, completed);
    Rewriter(KeysAfter(planned, completed), bucket)
  }

  /** Whatever the completion order, a segment becomes the same text, if and only if the uploaded keys it
      mentions agree. */
  lemma SegmentUploadFreeIff(planned: AssetKeys, tasks: seq<Task>, bucket: string, part: string)
    requires Planned(planned, tasks)
    ensures (forall c | SameTasks(c, tasks) ::
               NewPart(After(planned, tasks, c, bucket), part) == NewPart(After(planned, tasks, tasks, bucket), part))
            <==> UnambiguousUploads(NewKeys(planned, tasks), tasks, part)
  {
    var m := NewKeys(planned, tasks);
    if UnambiguousUploads(m, tasks, part) {
      forall c | SameTasks(c, tasks)
        ensures NewPart(After(planned, tasks, c, bucket), part) == NewPart(After(planned, tasks, tasks, bucket), part)
      {
        SameUploadDecision(planned, tasks, c, bucket, part);
      }
    } else {
      var c, c' := TwoCompletions(planned, tasks, bucket, part);
    }
  }

  /** Two completion orders that rewrite an ambiguous segment differently. */
  lemma TwoCompletions(planned: AssetKeys, tasks: seq<Task>, bucket: string, part: string)
    returns (c: seq<Task>, c': seq<Task>)
    requires Planned(planned, tasks) && !UnambiguousUploads(NewKeys(planned, tasks), tasks, part)
    ensures SameTasks(c, tasks) && SameTasks(c', tasks)
    ensures NewPart(After(planned, tasks, c, bucket), part) != NewPart(After(planned, tasks, c', bucket), part)
  {
    var m := NewKeys(planned, tasks);
    var j, k :| j in m && k in m && Completed(tasks, j) && Completed(tasks, k) &&
      Contains(part, j) && Contains(part, k) && Replace(part, j, m[j]) != Replace(part, k, m[k]);
    KeyLastIsCompletion(tasks, j);
    KeyLastIsCompletion(tasks, k);
    c, c' := KeyLast(tasks, j), KeyLast(tasks, k);
    KeyLastDecides(planned, tasks, j, part);
    KeyLastDecides(planned, tasks, k, part);
  }

  lemma SameUploadDecision(planned: AssetKeys, tasks: seq<Task>, c: seq<Task>, bucket: string, part: string)
    requires Planned(planned, tasks) && SameTasks(c, tasks)
    requires UnambiguousUploads(NewKeys(planned, tasks), tasks, part)
    ensures NewPart(After(planned, tasks, c, bucket), part) == NewPart(After(planned, tasks, tasks, bucket), part)
  {
    SameTasksMembers(c, tasks);
    UploadsDecide(planned, c, part);
    UploadsDecide(planned, tasks, part);
    assert MentionsUpload(c, part) <==> MentionsUpload(tasks, part);
  }

  /** All completion orders give one template. */
  ghost predicate OrderFree(planned: AssetKeys, tasks: seq<Task>, bucket: string, t: Json)
    requires Planned(planned, tasks)
  {
    forall c | SameTasks(c, tasks) ::
      Rewrite(After(planned, tasks, c, bucket), t) == Rewrite(After(planned, tasks, tasks, bucket), t)
  }

  /** All completion orders give one template, if and only if in every visited join segment the keys uploaded
      in this run that it mentions would rewrite it alike. */
  lemma CompletionOrderFreeIff(planned: AssetKeys, tasks: seq<Task>, bucket: string, t: Json)
    requires Planned(planned, tasks)
    ensures OrderFree(planned, tasks, bucket, t) <==>
            forall s | s in Spots(After(planned, tasks, tasks, bucket), t) && s.Segment? ::
              UnambiguousUploads(NewKeys(planned, tasks), tasks, s.text)
  {
    var rw := After(planned, tasks, tasks, bucket);
    forall c | SameTasks(c, tasks)
      ensures Rewrite(After(planned, tasks, c, bucket), t) == Rewrite(rw, t) <==>
              SameSpots(After(planned, tasks, c, bucket), rw, Spots(rw, t))
    {
      var order := After(planned, tasks, c, bucket).keys.order;
      assert After(planned, tasks, c, bucket) == Ordered(rw, order);
      RewriteInOrder(rw, order, t);
    }
    forall s | s in Spots(rw, t) && s.Segment?
      ensures (forall c | SameTasks(c, tasks) ::
                 NewPart(After(planned, tasks, c, bucket), s.text) == NewPart(rw, s.text)) <==>
              UnambiguousUploads(NewKeys(planned, tasks), tasks, s.text)
    {
      SegmentUploadFreeIff(planned, tasks, bucket, s.text);
    }
  }

  /** What the upload step plans is planned in this sense, and its completions are those of the tasks. */
  lemma UploadIsPlanned(store: map<string, Content>, assets: seq<FileAsset>, version: string)
    ensures Planned(RecordedKeys(store, assets, version), NeededTasks(store, assets, version))
    ensures forall c :: IsCompletion(store, assets, version, c) <==> SameTasks(c, NeededTasks(store, assets, version))
  {
    RecordedKeysMeaning(store, assets, version);
    NeededTaskOf(store, assets, version);
  }

  /** For one run of the upload step: the order in which its uploads complete does not show in the template, if
      and only if in every visited segment the keys it uploads agree. */
  lemma UploadOrderFreeIff(store: map<string, Content>, assets: seq<FileAsset>, version: string, bucket: string,
                           t: Json)
    ensures Planned(RecordedKeys(store, assets, version), NeededTasks(store, assets, version))
    ensures var planned, tasks := RecordedKeys(store, assets, version), NeededTasks(store, assets, version);
            OrderFree(planned, tasks, bucket, t) <==>
            forall s | s in Spots(After(planned, tasks, tasks, bucket), t) && s.Segment? ::
              UnambiguousUploads(NewKeys(planned, tasks), tasks, s.text)
  {
    UploadIsPlanned(store, assets, version);
    CompletionOrderFreeIff(RecordedKeys(store, assets, version), NeededTasks(store, assets, version), bucket, t);
  }

  /** A run that uploads nothing, such as a repeated one, has one template. */
  lemma NothingUploadedIsOrderFree(planned: AssetKeys, bucket: string, t: Json)
    requires Planned(planned, [])
    ensures OrderFree(planned, [], bucket, t)
  {
    forall c | SameTasks(c, []) ensures c == [] {
      assert |multiset(c)| == |c|;
    }
  }

  // ---- Two uploads whose order shows ----

  const FILE_A := FileAsset("asset.a", ["a"], true, "first")
  const FILE_B := FileAsset("asset.b", ["b"], true, "second")
  const TASK_A := Task("a", NewKey("1", "a"), "first")
  const TASK_B := Task("b", NewKey("1", "b"), "second")

  lemma TwoUploads()
    ensures RecordedKeys(map[], [FILE_A, FILE_B], "1") == AssetKeys([], map[])
    ensures NeededTasks(map[], [FILE_A, FILE_B], "1") == [TASK_A, TASK_B]
  {
    var assets := [FILE_A, FILE_B];
    assert assets[..1] == [FILE_A] && [FILE_A][..0] == [];
    assert NeededTasks(map[], [FILE_A], "1") == [TASK_A];
    assert RecordedKeys(map[], [FILE_A], "1") == AssetKeys([], map[]);
  }

  lemma TwoOrders()
    ensures KeysAfter(AssetKeys([], map[]), [TASK_A, TASK_B]) == AssetKeys(["a", "b"], BOTH_KEYS)
    ensures KeysAfter(AssetKeys([], map[]), [TASK_B, TASK_A]) == AssetKeys(["b", "a"], BOTH_KEYS)
  {
    assert "a"[0] != "b"[0];
    assert [TASK_A, TASK_B][..1] == [TASK_A] && [TASK_A][..0] == [];
    assert [TASK_B, TASK_A][..1] == [TASK_B] && [TASK_B][..0] == [];
    assert KeysAfter(AssetKeys([], map[]), [TASK_A]) == AssetKeys(["a"], map["a" := NewKey("1", "a")]);
    assert KeysAfter(AssetKeys([], map[]), [TASK_B]) == AssetKeys(["b"], map["b" := NewKey("1", "b")]);
  }

  const BOTH_KEYS := map["a" := NewKey("1", "a"), "b" := NewKey("1", "b")]

  lemma BothComplete()
    ensures IsCompletion(map[], [FILE_A, FILE_B], "1", [TASK_A, TASK_B])
    ensures IsCompletion(map[], [FILE_A, FILE_B], "1", [TASK_B, TASK_A])
  {
    TwoUploads();
  }

  ghost function AfterUploads(completed: seq<Task>): Rewriter {
    Rewriter(KeysAfter(RecordedKeys(map[], [FILE_A, FILE_B], "1"), completed), "bucket")
  }

  lemma AfterBoth()
    ensures AfterUploads([TASK_A, TASK_B]) == Rewriter(AssetKeys(["a", "b"], BOTH_KEYS), "bucket")
    ensures AfterUploads([TASK_B, TASK_A]) == Rewriter(AssetKeys(["b", "a"], BOTH_KEYS), "bucket")
  {
    TwoUploads();
    TwoOrders();
  }

  /** Two assets with plain keys and an empty store: a segment that mentions both keys has only the one
      replaced whose upload completes last. */
  lemma UploadOrderShows()
    ensures IsCompletion(map[], [FILE_A, FILE_B], "1", [TASK_A, TASK_B])
    ensures IsCompletion(map[], [FILE_A, FILE_B], "1", [TASK_B, TASK_A])
    ensures AfterUploads([TASK_A, TASK_B]).Valid() && AfterUploads([TASK_B, TASK_A]).Valid()
    ensures NewPart(AfterUploads([TASK_A, TASK_B]), "a:b") == "a:1/assets/b"
    ensures NewPart(AfterUploads([TASK_B, TASK_A]), "a:b") == "1/assets/a:b"
  {
    BothComplete();
    AfterBoth();
    SecondReplaced();
    FirstReplaced();
  }

  lemma BothKeys()
    ensures "" !in BOTH_KEYS && AssetKeys(["a", "b"], BOTH_KEYS).Valid() && AssetKeys(["b", "a"], BOTH_KEYS).Valid()
  {
    assert "a"[0] != "b"[0];
  }

  lemma SecondReplaced()
    ensures Rewriter(AssetKeys(["a", "b"], BOTH_KEYS), "bucket").Valid()
    ensures NewPart(Rewriter(AssetKeys(["a", "b"], BOTH_KEYS), "bucket"), "a:b") == "a:1/assets/b"
  {
    BothKeys();
    MentionsOfBoth();
    ReplaceOfBoth();
  }

  lemma FirstReplaced()
    ensures Rewriter(AssetKeys(["b", "a"], BOTH_KEYS), "bucket").Valid()
    ensures NewPart(Rewriter(AssetKeys(["b", "a"], BOTH_KEYS), "bucket"), "a:b") == "1/assets/a:b"
  {
    BothKeys();
    assert BOTH_KEYS["a"] == NewKey("1", "a");
    MentionsOfBoth();
    ReplaceOfBoth();
  }

  lemma MentionsOfBoth()
    ensures LastMentioned(["a", "b"], "a:b") == Some("b") && LastMentioned(["b", "a"], "a:b") == Some("a")
  {
    var p := "a:b";
    assert p[1..] == ":b" && ":b"[1..] == "b";
    assert "a" <= p && Contains(p, "a");
    assert "b" <= "b" && ":b"[0] != "b"[0] && p[0] != "b"[0];
    assert Contains("b", "b") && Contains(":b", "b") && Contains(p, "b");
    assert ["a", "b"][..1] == ["a"] && ["b", "a"][..1] == ["b"];
  }

  lemma ReplaceOfBoth()
    ensures Replace("a:b", "a", NewKey("1", "a")) == "1/assets/a:b"
    ensures Replace("a:b", "b", NewKey("1", "b")) == "a:1/assets/b"
  {
    var p := "a:b";
    assert p[1..] == ":b" && ":b"[1..] == "b" && "b"[1..] == "";
    assert "a" <= p && "b" <= "b" && ":b"[0] != "b"[0] && p[0] != "b"[0];
    assert ":b"[0] != "a"[0] && "b"[0] != "a"[0];
    assert NewKey("1", "a") == "1/assets/a" && NewKey("1", "b") == "1/assets/b";
    assert !Contains("b", "a") && !Contains(":b", "a");
    ReplaceNothing(":b", "a", "1/assets/a");
    assert Replace(p, "a", "1/assets/a") == "1/assets/a" + ":b";
    assert Replace("b", "b", "1/assets/b") == "1/assets/b" + "";
    assert Replace(":b", "b", "1/assets/b") == ":" + "1/assets/b";
    assert Replace(p, "b", "1/assets/b") == "a" + (":" + "1/assets/b");
  }
}
