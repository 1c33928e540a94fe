/** Uploading the file assets of one version, and which content each rewritten key then names. */
module AssetUpload {
  import opened Ordering
  import opened TextEdits

  type Content = string

  /** A manifest entry: source path, the object keys of its destinations, whether the file is there. */
  datatype FileAsset = FileAsset(sourcePath: string, objectKeys: seq<string>, present: bool, content: Content)
  {
    predicate Usable() {
      sourcePath != "" && objectKeys != [] && objectKeys[0] != "" && present
    }

    function OldKey(): string
      requires Usable()
    {
      objectKeys[0]
    }
  }

  /** The dict from old to new keys, with its insertion order. */
  datatype AssetKeys = AssetKeys(order: seq<string>, newKey: map<string, string>)
  {
    /** Every key once. */
    ghost predicate Valid() {
      && (forall k :: k in order <==> k in newKey)
      && (forall i, j | 0 <= i < j < |order| :: order[i] != order[j])
    }

    function Put(k: string, v: string): AssetKeys {
      AssetKeys(if k in newKey then order else order + [k], newKey[k := v])
    }
  }

  datatype Task = Task(oldKey: string, newKey: string, content: Content)

  function NewKey(version: string, oldKey: string): string {
    version + "/assets/" + Basename(oldKey)
  }

  /** A new key is its own new key, whatever the old one was. */
  lemma NewKeyStable(version: string, oldKey: string)
    ensures NewKey(version, NewKey(version, oldKey)) == NewKey(version, oldKey)
  {
    assert version + "/assets/" + Basename(oldKey) == (version + "/assets") + "/" + Basename(oldKey);
    BasenameOfJoined(version + "/assets", Basename(oldKey));
  }

  /** The path in front of a file name is replaced by the version and `assets`. */
  lemma NewKeyOf(version: string, folder: string, f: string)
    requires '/' !in f
    ensures NewKey(version, folder + "/" + f) == version + "/assets/" + f
    ensures NewKey(version, f) == version + "/assets/" + f
  {
    BasenameOfJoined(folder, f);
  }

  ghost predicate IsUsable(assets: seq<FileAsset>, a: FileAsset) {
    a in assets && a.Usable()
  }

  /** An asset is used iff it has a source path, its file is there, and its first object key is not empty. */
  lemma UsableIff(assets: seq<FileAsset>, a: FileAsset)
    ensures IsUsable(assets, a) <==>
              a in assets && a.sourcePath != "" && a.present && a.objectKeys != [] && a.objectKeys[0] != ""
    ensures a.Usable() ==> a.OldKey() == a.objectKeys[0]
  {
  }

  function TaskOf(version: string, a: FileAsset): Task
    requires a.Usable()
  {
    Task(a.OldKey(), NewKey(version, a.OldKey()), a.content)
  }

  ghost predicate Recorded(store: map<string, Content>, assets: seq<FileAsset>, version: string, k: string) {
    NewKey(version, k) in store && exists a :: IsUsable(assets, a) && a.OldKey() == k
  }

  /** The keys of assets whose new key exists already, in the order of the manifest. */
  function RecordedKeys(store: map<string, Content>, assets: seq<FileAsset>, version: string): AssetKeys {
    if assets == [] then AssetKeys([], map[])
    else
      var keys := RecordedKeys(store, assets[..|assets| - 1], version);
      var last := assets[|assets| - 1];
      if last.Usable() && NewKey(version, last.OldKey()) in store
      then keys.Put(last.OldKey(), NewKey(version, last.OldKey())) else keys
  }

  lemma {:induction false} RecordedKeysMeaning(store: map<string, Content>, assets: seq<FileAsset>, version: string)
    ensures var keys := RecordedKeys(store, assets, version);
            && keys.Valid()
            && (forall k :: k in keys.newKey <==> Recorded(store, assets, version, k))
            && (forall k | k in keys.newKey :: keys.newKey[k] == NewKey(version, k))
    decreases |assets|
  {
    if assets != [] {
      var n := |assets| - 1;
      RecordedKeysMeaning(store, assets[..n], version);
      UsableNext(assets, n);
      assert assets[..n + 1] == assets;
    }
  }

  /** `k` is the key of a usable asset whose new key exists. */
  ghost predicate RecordsKey(store: map<string, Content>, version: string, a: FileAsset, k: string) {
    && a.sourcePath != "" && a.present && a.objectKeys != [] && a.objectKeys[0] == k && k != ""
    && NewKey(version, k) in store
  }

  /** An entry of the manifest records `x` and none up to there records `y`. */
  ghost predicate RecordedBefore(store: map<string, Content>, assets: seq<FileAsset>, version: string,
                                 x: string, y: string) {
    exists m :: 0 <= m < |assets| && RecordsKey(store, version, assets[m], x) &&
                NotRecorded(store, assets[..m + 1], version, y)
  }

  ghost predicate NotRecorded(store: map<string, Content>, assets: seq<FileAsset>, version: string, y: string) {
    forall a | a in assets :: !RecordsKey(store, version, a, y)
  }

  /** Recorded keys are listed in the order in which the manifest first names them. */
  lemma {:induction false} RecordedInOrder(store: map<string, Content>, assets: seq<FileAsset>, version: string,
                                           i: nat, j: nat)
    requires i < j < |RecordedKeys(store, assets, version).order|
    ensures var order := RecordedKeys(store, assets, version).order;
            RecordedBefore(store, assets, version, order[i], order[j])
    decreases |assets|
  {
    var n := |assets| - 1;
    var front, order := assets[..n], RecordedKeys(store, assets, version).order;
    var before := RecordedKeys(store, front, version).order;
    if j < |before| {
      RecordedInOrder(store, front, version, i, j);
      var m :| 0 <= m < n && RecordsKey(store, version, front[m], order[i]) &&
               NotRecorded(store, front[..m + 1], version, order[j]);
      assert front[..m + 1] == assets[..m + 1] && front[m] == assets[m];
    } else {
      RecordedSomewhere(store, front, version, order[i]);
      var m :| 0 <= m < n && RecordsKey(store, version, front[m], order[i]);
      RecordedKeysMeaning(store, front, version);
      forall a | a in assets[..m + 1] ensures !RecordsKey(store, version, a, order[j]) {
        assert a in front;
        KeyIsRecorded(store, front, version, a, order[j]);
      }
      assert assets[m] == front[m];
    }
  }

  lemma KeyIsRecorded(store: map<string, Content>, assets: seq<FileAsset>, version: string, a: FileAsset, k: string)
    requires a in assets
    ensures RecordsKey(store, version, a, k) ==> Recorded(store, assets, version, k)
  {
    if RecordsKey(store, version, a, k) {
      assert IsUsable(assets, a) && a.OldKey() == k;
    }
  }

  lemma RecordedSomewhere(store: map<string, Content>, assets: seq<FileAsset>, version: string, k: string)
    requires k in RecordedKeys(store, assets, version).order
    ensures exists m :: 0 <= m < |assets| && RecordsKey(store, version, assets[m], k)
  {
    RecordedKeysMeaning(store, assets, version);
    var a :| IsUsable(assets, a) && a.OldKey() == k;
    var m :| 0 <= m < |assets| && assets[m] == a;
    assert RecordsKey(store, version, assets[m], k);
  }

  /** The uploads that are needed, in the order of the manifest. */
  function NeededTasks(store: map<string, Content>, assets: seq<FileAsset>, version: string): seq<Task> {
    if assets == [] then []
    else
      var last := assets[|assets| - 1];
      NeededTasks(store, assets[..|assets| - 1], version) +
      (if last.Usable() && NewKey(version, last.OldKey()) !in store then [TaskOf(version, last)] else [])
  }

  /** Entry by entry: one task for each usable asset whose new key is missing, repeats included. */
  lemma {:induction false} NeededInBoth(store: map<string, Content>, a: seq<FileAsset>, b: seq<FileAsset>,
                                        version: string)
    ensures NeededTasks(store, a + b, version) == NeededTasks(store, a, version) + NeededTasks(store, b, version)
    decreases |b|
  {
    if b == [] {
      assert a + b == a;
    } else {
      var front, last := b[..|b| - 1], b[|b| - 1];
      SplitLast(a, b);
      NeededInBoth(store, a, front, version);
      NeededLast(store, a + front, last, version);
      NeededLast(store, front, last, version);
      Reassociated(NeededTasks(store, a, version), NeededTasks(store, front, version),
                   NeededTasks(store, [last], version));
    }
  }

  lemma NeededLast(store: map<string, Content>, assets: seq<FileAsset>, last: FileAsset, version: string)
    ensures NeededTasks(store, assets + [last], version) ==
            NeededTasks(store, assets, version) + NeededTasks(store, [last], version)
    ensures NeededTasks(store, [last], version) ==
            if last.sourcePath != "" && last.present && last.objectKeys != [] && last.objectKeys[0] != "" &&
               NewKey(version, last.objectKeys[0]) !in store
            then [Task(last.objectKeys[0], NewKey(version, last.objectKeys[0]), last.content)] else []
  {
    assert (assets + [last])[..|assets|] == assets;
    assert [last][..0] == [];
  }

  /** Assets whose new key exists already are only recorded; the others become upload tasks. */
  method PlanUploads(store: map<string, Content>, assets: seq<FileAsset>, version: string)
    returns (keys: AssetKeys, tasks: seq<Task>)
    ensures keys == RecordedKeys(store, assets, version)
    ensures tasks == NeededTasks(store, assets, version)
  {
    keys, tasks := AssetKeys([], map[]), [];
    for i := 0 to |assets|
      invariant keys == RecordedKeys(store, assets[..i], version)
      invariant tasks == NeededTasks(store, assets[..i], version)
    {
      var asset := assets[i];
      assert assets[..i + 1][..i] == assets[..i];
      if !asset.Usable() {
        continue;
      }
      var oldKey := asset.OldKey();
      var newKey := NewKey(version, oldKey);
      if newKey in store {
        keys := keys.Put(oldKey, newKey);
        continue;
      }
      tasks := tasks + [Task(oldKey, newKey, asset.content)];
    }
    assert assets[..|assets|] == assets;
  }

  lemma UsableNext(assets: seq<FileAsset>, i: nat)
    requires i < |assets|
    ensures forall a :: IsUsable(assets[..i + 1], a) <==> IsUsable(assets[..i], a) || (a == assets[i] && a.Usable())
  {
    assert assets[..i + 1] == assets[..i] + [assets[i]];
  }

  /** The store after the tasks complete in the given order. */
  function StoreAfter(store: map<string, Content>, completed: seq<Task>): map<string, Content> {
    if completed == [] then store
    else
      var last := completed[|completed| - 1];
      StoreAfter(store, completed[..|completed| - 1])[last.newKey := last.content]
  }

  /** The key map after the tasks complete in the given order; a dict keeps its insertion order. */
  function KeysAfter(keys: AssetKeys, completed: seq<Task>): AssetKeys {
    if completed == [] then keys
    else
      var last := completed[|completed| - 1];
      KeysAfter(keys, completed[..|completed| - 1]).Put(last.oldKey, last.newKey)
  }

  /** Uploads are recorded one after the other; a key that is listed already keeps its place. */
  lemma {:induction false} KeysAfterBoth(keys: AssetKeys, a: seq<Task>, b: seq<Task>)
    ensures KeysAfter(keys, a + b) == KeysAfter(KeysAfter(keys, a), b)
    decreases |b|
  {
    if b == [] {
      assert a + b == a;
    } else {
      SplitLast(a, b);
      KeysAfterBoth(keys, a, b[..|b| - 1]);
      assert (a + b)[..|a + b| - 1] == a + b[..|b| - 1];
    }
  }

  lemma KeysAfterOne(keys: AssetKeys, t: Task)
    ensures KeysAfter(keys, [t]).newKey == keys.newKey[t.oldKey := t.newKey]
    ensures KeysAfter(keys, [t]).order == if t.oldKey in keys.newKey then keys.order else keys.order + [t.oldKey]
  {
    assert [t][..0] == [];
  }

  /** What is recorded in the end: what was before, and every completed upload. */
  lemma {:induction false} KeysAfterMeaning(keys: AssetKeys, completed: seq<Task>)
    requires keys.Valid()
    ensures var after := KeysAfter(keys, completed);
            && after.Valid()
            && (forall k :: k in after.newKey <==> k in keys.newKey || Completed(completed, k))
            && (forall k | k in after.newKey ::
                  (k in keys.newKey && after.newKey[k] == keys.newKey[k]) || CompletedAs(completed, k, after.newKey[k]))
    decreases |completed|
  {
    if completed != [] {
      var front, last := completed[..|completed| - 1], completed[|completed| - 1];
      KeysAfterMeaning(keys, front);
      assert completed == front + [last];
      assert CompletedAs(completed, last.oldKey, last.newKey);
      forall k ensures Completed(completed, k) <==> Completed(front, k) || k == last.oldKey {
        if Completed(front, k) {
          var t :| t in front && t.oldKey == k;
          assert t in completed;
        }
      }
      forall k, v | CompletedAs(front, k, v) ensures CompletedAs(completed, k, v) {
        var t :| t in front && t.oldKey == k && t.newKey == v;
        assert t in completed;
      }
    }
  }

  ghost predicate Completed(completed: seq<Task>, k: string) {
    exists t :: t in completed && t.oldKey == k
  }

  ghost predicate CompletedAs(completed: seq<Task>, k: string, v: string) {
    exists t :: t in completed && t.oldKey == k && t.newKey == v
  }

  /** Records the uploads as they complete, in whatever order that is. */
  method FinishUploads(store: map<string, Content>, keys: AssetKeys, completed: seq<Task>)
    returns (keys': AssetKeys, store': map<string, Content>)
    requires keys.Valid()
    ensures store' == StoreAfter(store, completed)
    ensures keys' == KeysAfter(keys, completed)
  {
    keys', store' := keys, store;
    for i := 0 to |completed|
      invariant store' == StoreAfter(store, completed[..i])
      invariant keys' == KeysAfter(keys, completed[..i])
    {
      var t := completed[i];
      assert completed[..i + 1][..i] == completed[..i];
      store' := store'[t.newKey := t.content];
      keys' := keys'.Put(t.oldKey, t.newKey);
    }
    assert completed[..|completed|] == completed;
  }

  /** Uploads the assets; `pool` decides the order in which the tasks happen to finish. */
  method UploadAssets(store: map<string, Content>, assets: seq<FileAsset>, version: string,
                      pool: seq<Task> -> seq<Task>)
    returns (keys: AssetKeys, store': map<string, Content>)
    requires forall q :: multiset(pool(q)) == multiset(q)
    ensures keys.Valid()
    ensures forall k :: k in keys.newKey <==> exists a :: IsUsable(assets, a) && a.OldKey() == k
    ensures forall k | k in keys.newKey :: keys.newKey[k] == NewKey(version, k)
    ensures exists completed ::
              IsCompletion(store, assets, version, completed) && store' == StoreAfter(store, completed) &&
              keys == KeysAfter(RecordedKeys(store, assets, version), completed)
  {
    var planned, tasks := PlanUploads(store, assets, version);
    RecordedKeysMeaning(store, assets, version);
    var completed := pool(tasks);
    keys, store' := FinishUploads(store, planned, completed);
    assert IsCompletion(store, assets, version, completed);
    KeysAfterMeaning(planned, completed);
    CompletionTasks(store, assets, version, completed);
    forall k ensures k in keys.newKey <==> exists a :: IsUsable(assets, a) && a.OldKey() == k {
      if a :| IsUsable(assets, a) && a.OldKey() == k {
        if NewKey(version, k) !in store {
          assert TaskOf(version, a) in completed;
        }
      }
    }
  }

  /** Some order of finishing each of the needed tasks once. */
  ghost predicate IsCompletion(store: map<string, Content>, assets: seq<FileAsset>, version: string,
                               completed: seq<Task>) {
    multiset(completed) == multiset(NeededTasks(store, assets, version))
  }

  /** A task is among the completed ones when a usable asset needs it. */
  lemma CompletionTasks(store: map<string, Content>, assets: seq<FileAsset>, version: string, completed: seq<Task>)
    requires IsCompletion(store, assets, version, completed)
    ensures forall t :: t in completed <==>
              exists a :: IsUsable(assets, a) && t == TaskOf(version, a) && t.newKey !in store
  {
    var needed := NeededTasks(store, assets, version);
    NeededTaskOf(store, assets, version);
    forall t ensures t in completed <==> t in needed {
      assert t in multiset(completed) <==> t in multiset(needed);
    }
  }

  lemma {:induction false} NeededTaskOf(store: map<string, Content>, assets: seq<FileAsset>, version: string)
    ensures forall t :: t in NeededTasks(store, assets, version) <==>
              exists a :: IsUsable(assets, a) && t == TaskOf(version, a) && t.newKey !in store
    decreases |assets|
  {
    if assets != [] {
      var n := |assets| - 1;
      NeededTaskOf(store, assets[..n], version);
      UsableNext(assets, n);
      assert assets[..n + 1] == assets;
    }
  }

  // ---- Main result: when every recorded key names its asset's content ----

  ghost predicate Serves(store: map<string, Content>, assets: seq<FileAsset>, version: string) {
    forall a | IsUsable(assets, a) ::
      NewKey(version, a.OldKey()) in store && store[NewKey(version, a.OldKey())] == a.content
  }

  /** Assets that fall on one new key carry one content, and so does what the store already holds there. */
  ghost predicate NoClash(store: map<string, Content>, assets: seq<FileAsset>, version: string) {
    && (forall a | IsUsable(assets, a) && NewKey(version, a.OldKey()) in store ::
          store[NewKey(version, a.OldKey())] == a.content)
    && (forall a, b | IsUsable(assets, a) && IsUsable(assets, b) &&
                      NewKey(version, a.OldKey()) == NewKey(version, b.OldKey()) &&
                      NewKey(version, a.OldKey()) !in store :: a.content == b.content)
  }

  /** What the store holds under a key: the last upload to it, or what it held before. */
  lemma {:induction false} StoreHolds(store: map<string, Content>, completed: seq<Task>, key: string)
    ensures var after := StoreAfter(store, completed);
            if exists t :: t in completed && t.newKey == key
            then key in after && exists t :: t in completed && t.newKey == key && t.content == after[key]
            else (key in after <==> key in store) && (key in store ==> after[key] == store[key])
    decreases |completed|
  {
    if completed != [] {
      var front, last := completed[..|completed| - 1], completed[|completed| - 1];
      assert completed == front + [last];
      StoreHolds(store, front, key);
      if last.newKey == key {
        assert last in completed;
      } else if t :| t in front && t.newKey == key && t.content == StoreAfter(store, front)[key] {
        assert t in completed;
      }
    }
  }

  /** Of the uploads to one key the last to complete counts. */
  lemma {:induction false} LastUploadCounts(store: map<string, Content>, completed: seq<Task>, i: nat)
    requires i < |completed| && forall j | i < j < |completed| :: completed[j].newKey != completed[i].newKey
    ensures var after := StoreAfter(store, completed);
            completed[i].newKey in after && after[completed[i].newKey] == completed[i].content
    decreases |completed|
  {
    if i < |completed| - 1 {
      LastUploadCounts(store, completed[..|completed| - 1], i);
    }
  }

  lemma NoClashServes(store: map<string, Content>, assets: seq<FileAsset>, version: string, completed: seq<Task>)
    requires NoClash(store, assets, version) && IsCompletion(store, assets, version, completed)
    ensures Serves(StoreAfter(store, completed), assets, version)
  {
    CompletionTasks(store, assets, version, completed);
    forall a | IsUsable(assets, a)
      ensures var key := NewKey(version, a.OldKey());
              key in StoreAfter(store, completed) && StoreAfter(store, completed)[key] == a.content
    {
      var key := NewKey(version, a.OldKey());
      StoreHolds(store, completed, key);
      if key !in store {
        assert TaskOf(version, a) in completed;
        var t :| t in completed && t.newKey == key && t.content == StoreAfter(store, completed)[key];
        var b :| IsUsable(assets, b) && t == TaskOf(version, b);
      } else {
        assert !exists t :: t in completed && t.newKey == key;
      }
    }
  }

  /** With a clash, some asset is served wrong however the uploads finish. */
  lemma ClashIsServedWrong(store: map<string, Content>, assets: seq<FileAsset>, version: string, completed: seq<Task>)
    requires !NoClash(store, assets, version) && IsCompletion(store, assets, version, completed)
    ensures !Serves(StoreAfter(store, completed), assets, version)
  {
    CompletionTasks(store, assets, version, completed);
    forall a | IsUsable(assets, a) && NewKey(version, a.OldKey()) in store
      ensures var key := NewKey(version, a.OldKey());
              key in StoreAfter(store, completed) && StoreAfter(store, completed)[key] == store[key]
    {
      var key := NewKey(version, a.OldKey());
      StoreHolds(store, completed, key);
      assert !exists t :: t in completed && t.newKey == key;
    }
  }

  /** However the uploads finish, every asset is served if and only if there is no clash: the order does
      not matter for that. */
  lemma AllKeysServedIff(store: map<string, Content>, assets: seq<FileAsset>, version: string, completed: seq<Task>)
    requires IsCompletion(store, assets, version, completed)
    ensures Serves(StoreAfter(store, completed), assets, version) <==> NoClash(store, assets, version)
  {
    if NoClash(store, assets, version) {
      NoClashServes(store, assets, version, completed);
    } else {
      ClashIsServedWrong(store, assets, version, completed);
    }
  }
}
