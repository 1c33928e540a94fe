/** The index pages of an uploaded folder tree, and which links lead where. */
module IndexPages {
  import opened Ordering
  import opened SlashPaths

  /** Keys and folders by their parts; the empty folder name is the one part "". */
  type Folder = Parts

  datatype Page = Page(subfolders: set<Folder>, files: seq<Parts>)

  /** `key.rsplit("/", 1)[0]`, or "" for a key without slash. */
  function Parent(key: Parts): Folder
    requires |key| > 0
  {
    if |key| == 1 then [""] else key[..|key| - 1]
  }

  ghost predicate Keys(keys: seq<Parts>) {
    forall key | key in keys :: |key| > 0
  }

  // ---- generate_index ----

  function FilesIn(keys: seq<Parts>, folder: Folder): (r: seq<Parts>)
    requires Keys(keys)
  {
    if keys == [] then []
    else
      var last := keys[|keys| - 1];
      FilesIn(keys[..|keys| - 1], folder) + (if Parent(last) == folder then [last] else [])
  }

  lemma {:induction false} FilesInMeaning(keys: seq<Parts>, folder: Folder, key: Parts)
    requires Keys(keys)
    ensures key in FilesIn(keys, folder) <==> key in keys && Parent(key) == folder
    decreases |keys|
  {
    if keys != [] {
      var front, last := keys[..|keys| - 1], keys[|keys| - 1];
      assert keys == front + [last];
      FilesInMeaning(front, folder, key);
    }
  }

  /** A folder lists each of its keys as often as it was uploaded, in the order of the keys. */
  lemma {:induction false} FilesInBoth(a: seq<Parts>, b: seq<Parts>, folder: Folder)
    requires Keys(a) && Keys(b)
    ensures FilesIn(a + b, folder) == FilesIn(a, folder) + FilesIn(b, folder)
    decreases |b|
  {
    if b == [] {
      assert a + b == a;
    } else {
      var front, last := b[..|b| - 1], b[|b| - 1];
      SplitLast(a, b);
      FilesInBoth(a, front, folder);
      FilesInLast(a + front, last, folder);
      FilesInLast(front, last, folder);
      Reassociated(FilesIn(a, folder), FilesIn(front, folder), FilesIn([last], folder));
    }
  }

  lemma FilesInLast(keys: seq<Parts>, key: Parts, folder: Folder)
    requires Keys(keys) && |key| > 0
    ensures FilesIn(keys + [key], folder) == FilesIn(keys, folder) + FilesIn([key], folder)
  {
    assert (keys + [key])[..|keys|] == keys;
    assert [key][..0] == [];
  }

  /** A key belongs to the folder of all its parts but the last, and to the empty folder without any. */
  lemma FilesInOne(folder: Folder, name: string)
    ensures folder != [] ==> FilesIn([folder + [name]], folder) == [folder + [name]]
    ensures FilesIn([[name]], [""]) == [[name]]
    ensures forall other | other != (if folder == [] then [""] else folder) :: FilesIn([folder + [name]], other) == []
  {
    assert [folder + [name]][..0] == [] && [[name]][..0] == [];
    assert (folder + [name])[..|folder|] == folder;
  }

  /** `child` is linked from its parent: a key goes on below it. */
  ghost predicate IsSubfolder(keys: seq<Parts>, parent: Folder, child: Folder) {
    exists key :: key in keys && 1 < |child| < |key| && child <= key && parent == child[..|child| - 1]
  }

  ghost predicate KeyShows(key: Parts, parent: Folder, child: Folder, depth: nat) {
    1 < |child| <= depth && |child| < |key| && child <= key && parent == child[..|child| - 1]
  }

  method CollectFolders(keys: seq<Parts>) returns (folders: map<Folder, seq<Parts>>)
    requires Keys(keys)
    ensures forall f :: f in folders <==> FilesIn(keys, f) != []
    ensures forall f | f in folders :: folders[f] == FilesIn(keys, f)
  {
    folders := map[];
    for i := 0 to |keys|
      invariant forall f :: f in folders <==> FilesIn(keys[..i], f) != []
      invariant forall f | f in folders :: folders[f] == FilesIn(keys[..i], f)
    {
      var key := keys[i];
      assert key in keys && keys[..i + 1][..i] == keys[..i];
      var parent := Parent(key);
      folders := folders[parent := (if parent in folders then folders[parent] else []) + [key]];
    }
    assert keys[..|keys|] == keys;
  }

  lemma KeyShowsNext(key: Parts, parent: Folder, child: Folder, depth: nat)
    requires 1 <= depth < |key|
    ensures KeyShows(key, parent, child, depth + 1) <==>
              KeyShows(key, parent, child, depth) ||
              (depth + 1 < |key| && child == key[..depth + 1] && parent == key[..depth])
  {
    if KeyShows(key, parent, child, depth + 1) && |child| == depth + 1 {
      assert child == key[..depth + 1];
      assert child[..depth] == key[..depth];
    } else if depth + 1 < |key| && child == key[..depth + 1] {
      assert child[..depth] == key[..depth];
    }
  }

  ghost predicate LinkIn(m: map<Folder, set<Folder>>, p: Folder, c: Folder) {
    p in m && c in m[p]
  }

  /** A key is in the dictionary only with at least one link. */
  ghost predicate NoEmptyKeys(m: map<Folder, set<Folder>>) {
    forall p | p in m :: m[p] != {}
  }

  function AddLink(m: map<Folder, set<Folder>>, p: Folder, c: Folder): map<Folder, set<Folder>> {
    m[p := (if p in m then m[p] else {}) + {c}]
  }

  lemma AddLinkMeaning(m: map<Folder, set<Folder>>, p: Folder, c: Folder)
    requires NoEmptyKeys(m)
    ensures NoEmptyKeys(AddLink(m, p, c))
    ensures forall q, d :: LinkIn(AddLink(m, p, c), q, d) <==> LinkIn(m, q, d) || (q == p && d == c)
  {
    assert c in AddLink(m, p, c)[p];
  }

  /** Adds the links one key shows: every folder above it to the next, but not to the key itself. */
  method AddSubfolders(key: Parts, subfolders: map<Folder, set<Folder>>) returns (r: map<Folder, set<Folder>>)
    requires |key| > 0 && NoEmptyKeys(subfolders)
    ensures NoEmptyKeys(r)
    ensures forall p, c :: LinkIn(r, p, c) <==> LinkIn(subfolders, p, c) || KeyShows(key, p, c, |key|)
  {
    r := subfolders;
    for depth := 1 to |key|
      invariant NoEmptyKeys(r)
      invariant forall p, c :: LinkIn(r, p, c) <==> LinkIn(subfolders, p, c) || KeyShows(key, p, c, depth)
    {
      var parent, child := key[..depth], key[..depth + 1];
      ghost var before := r;
      assert child != key <==> depth + 1 < |key|;
      if child != key {
        AddLinkMeaning(r, parent, child);
        r := AddLink(r, parent, child);
      }
      forall p, c ensures LinkIn(r, p, c) <==> LinkIn(subfolders, p, c) || KeyShows(key, p, c, depth + 1) {
        KeyShowsNext(key, p, c, depth);
        assert LinkIn(before, p, c) <==> LinkIn(subfolders, p, c) || KeyShows(key, p, c, depth);
      }
    }
  }

  lemma SubfolderNext(keys: seq<Parts>, i: nat, p: Folder, c: Folder)
    requires i < |keys|
    ensures IsSubfolder(keys[..i + 1], p, c) <==> IsSubfolder(keys[..i], p, c) || KeyShows(keys[i], p, c, |keys[i]|)
  {
    assert keys[..i + 1] == keys[..i] + [keys[i]];
    if IsSubfolder(keys[..i + 1], p, c) {
      var key :| key in keys[..i + 1] && 1 < |c| < |key| && c <= key && p == c[..|c| - 1];
    }
    if KeyShows(keys[i], p, c, |keys[i]|) {
      assert keys[i] in keys[..i + 1];
    }
  }

  method CollectSubfolders(keys: seq<Parts>) returns (subfolders: map<Folder, set<Folder>>)
    requires Keys(keys)
    ensures NoEmptyKeys(subfolders)
    ensures forall p, c :: LinkIn(subfolders, p, c) <==> IsSubfolder(keys, p, c)
  {
    subfolders := map[];
    for i := 0 to |keys|
      invariant NoEmptyKeys(subfolders)
      invariant forall p, c :: LinkIn(subfolders, p, c) <==> IsSubfolder(keys[..i], p, c)
    {
      assert keys[i] in keys;
      ghost var before := subfolders;
      subfolders := AddSubfolders(keys[i], subfolders);
      forall p, c ensures LinkIn(subfolders, p, c) <==> IsSubfolder(keys[..i + 1], p, c) {
        SubfolderNext(keys, i, p, c);
        assert LinkIn(before, p, c) <==> IsSubfolder(keys[..i], p, c);
      }
    }
    assert keys[..|keys|] == keys;
  }

  /** The pages: every folder that holds a file or shows a subfolder, and the one of the prefix. */
  method GenerateIndex(keys: seq<Parts>, prefix: Folder) returns (pages: map<Folder, Page>)
    requires Keys(keys)
    ensures forall f :: f in pages <==> HasPage(keys, prefix, f)
    ensures forall f | f in pages :: pages[f].files == FilesIn(keys, f)
    ensures forall f, c | f in pages :: c in pages[f].subfolders <==> IsSubfolder(keys, f, c)
  {
    var folders := CollectFolders(keys);
    var subfolders := CollectSubfolders(keys);
    var allFolders := folders.Keys + subfolders.Keys + {prefix};
    pages := map f | f in allFolders ::
      Page(if f in subfolders then subfolders[f] else {}, if f in folders then folders[f] else []);
    forall f ensures f in pages <==> HasPage(keys, prefix, f) {
      LinkedFolder(keys, subfolders, f);
    }
    forall f, c | f in pages ensures c in pages[f].subfolders <==> IsSubfolder(keys, f, c) {
      assert LinkIn(subfolders, f, c) <==> IsSubfolder(keys, f, c);
    }
  }

  lemma LinkedFolder(keys: seq<Parts>, subfolders: map<Folder, set<Folder>>, f: Folder)
    requires NoEmptyKeys(subfolders)
    requires forall p, c :: LinkIn(subfolders, p, c) <==> IsSubfolder(keys, p, c)
    ensures f in subfolders <==> exists c :: IsSubfolder(keys, f, c)
  {
    if f in subfolders {
      var c :| c in subfolders[f];
      assert LinkIn(subfolders, f, c);
    }
    if c :| IsSubfolder(keys, f, c) {
      assert LinkIn(subfolders, f, c);
    }
  }

  ghost predicate HasPage(keys: seq<Parts>, prefix: Folder, folder: Folder)
    requires Keys(keys)
  {
    FilesIn(keys, folder) != [] || (exists c :: IsSubfolder(keys, folder, c)) || folder == prefix
  }

  // ---- Main results about the links ----

  /** Every subfolder link leads to a folder that has a page, whatever the keys are. */
  lemma SubfolderLinksLand(keys: seq<Parts>, prefix: Folder, folder: Folder, child: Folder)
    requires Keys(keys) && IsSubfolder(keys, folder, child)
    ensures HasPage(keys, prefix, child)
  {
    var key :| key in keys && 1 < |child| < |key| && child <= key && folder == child[..|child| - 1];
    if |key| == |child| + 1 {
      assert Parent(key) == child;
      FilesInMeaning(keys, child, key);
    } else {
      var next := key[..|child| + 1];
      assert next[..|child|] == child;
      assert IsSubfolder(keys, child, next);
    }
  }

  /** A chain of subfolder links from one page to another. */
  ghost predicate LinkedChain(keys: seq<Parts>, chain: seq<Folder>) {
    |chain| > 0 && forall i | 0 <= i < |chain| - 1 :: IsSubfolder(keys, chain[i], chain[i + 1])
  }

  /** The page of `start` leads to the key by links. */
  ghost predicate Reaches(keys: seq<Parts>, start: Folder, key: Parts)
    requires |key| > 0
  {
    exists chain :: LinkedChain(keys, chain) && chain[0] == start && key in keys && chain[|chain| - 1] == Parent(key)
  }

  lemma {:induction false} ChainDown(keys: seq<Parts>, key: Parts, n: nat) returns (chain: seq<Folder>)
    requires key in keys && 0 < n < |key|
    ensures LinkedChain(keys, chain) && chain[0] == key[..n] && chain[|chain| - 1] == key[..|key| - 1]
    decreases |key| - n
  {
    if n == |key| - 1 {
      chain := [key[..n]];
    } else {
      var rest := ChainDown(keys, key, n + 1);
      assert key[..n + 1][..n] == key[..n];
      assert IsSubfolder(keys, key[..n], key[..n + 1]);
      chain := [key[..n]] + rest;
      forall i | 0 <= i < |chain| - 1 ensures IsSubfolder(keys, chain[i], chain[i + 1]) {
        if i > 0 {
          assert chain[i] == rest[i - 1] && chain[i + 1] == rest[i];
        }
      }
    }
  }

  /** Links only lead further down. */
  lemma {:induction false} ChainExtends(keys: seq<Parts>, chain: seq<Folder>, i: nat)
    requires LinkedChain(keys, chain) && i < |chain|
    ensures chain[0] <= chain[i]
    decreases i
  {
    if i > 0 {
      ChainExtends(keys, chain, i - 1);
      assert IsSubfolder(keys, chain[i - 1], chain[i - 1 + 1]);
    }
  }

  /** From the page of a prefix exactly the keys below the prefix are reachable, and from the root page
      of an empty prefix exactly the keys without a folder besides those. */
  lemma ReachableIff(keys: seq<Parts>, start: Folder, key: Parts)
    requires Keys(keys) && key in keys && |start| > 0
    ensures Reaches(keys, start, key) <==> (start <= key && |start| < |key|) || (|key| == 1 && start == [""])
  {
    if Reaches(keys, start, key) {
      var chain :| LinkedChain(keys, chain) && chain[0] == start && key in keys && chain[|chain| - 1] == Parent(key);
      ChainExtends(keys, chain, |chain| - 1);
      if |key| == 1 {
        RootHasNoLinkTo(keys, chain);
      }
    }
    if start <= key && |start| < |key| {
      var chain := ChainDown(keys, key, |start|);
      assert key[..|start|] == start;
    }
    if |key| == 1 && start == [""] {
      assert LinkedChain(keys, [start]);
    }
  }

  /** No link leads to the page of the empty folder name. */
  lemma RootHasNoLinkTo(keys: seq<Parts>, chain: seq<Folder>)
    requires LinkedChain(keys, chain) && chain[|chain| - 1] == [""]
    ensures |chain| == 1
  {
    forall j | 1 <= j < |chain| ensures |chain[j]| > 1 {
      assert IsSubfolder(keys, chain[j - 1], chain[j - 1 + 1]);
    }
  }

  /** With a non-empty prefix that all keys lie under, every uploaded key is reachable from its page. */
  lemma EveryKeyReachable(keys: seq<Parts>, prefix: Folder, key: Parts)
    requires Keys(keys) && |prefix| > 0 && (forall k | k in keys :: prefix <= k && |prefix| < |k|) && key in keys
    ensures HasPage(keys, prefix, prefix) && Reaches(keys, prefix, key)
  {
    ReachableIff(keys, prefix, key);
  }

  // ---- Breadcrumbs ----

  /** A page's breadcrumb links to every folder above it and to itself; the root page has none. */
  ghost predicate BreadcrumbLinks(folder: Folder, target: Folder) {
    folder != [""] && 0 < |target| <= |folder| && target <= folder
  }

  ghost predicate BreadcrumbsLand(keys: seq<Parts>, prefix: Folder)
    requires Keys(keys)
  {
    forall folder, target | HasPage(keys, prefix, folder) && BreadcrumbLinks(folder, target) ::
      HasPage(keys, prefix, target)
  }

  lemma AboveKeyHasPage(keys: seq<Parts>, prefix: Folder, key: Parts, target: Folder)
    requires Keys(keys) && key in keys && 0 < |target| < |key| && target <= key
    ensures HasPage(keys, prefix, target)
  {
    if |key| == |target| + 1 {
      assert Parent(key) == target;
      FilesInMeaning(keys, target, key);
    } else {
      var next := key[..|target| + 1];
      assert next[..|target|] == target;
      assert IsSubfolder(keys, target, next);
    }
  }

  /** What an upload under the prefix gives: all keys lie below it; without a prefix they start with a name. */
  ghost predicate Uploaded(keys: seq<Parts>, prefix: Folder) {
    Keys(keys) && |prefix| > 0 &&
    forall k | k in keys :: if prefix == [""] then k[0] != "" else prefix <= k && |prefix| < |k|
  }

  /** The breadcrumbs of all pages lead to pages exactly when something was uploaded or the prefix is empty or
      a single folder. */
  lemma BreadcrumbsLandIff(keys: seq<Parts>, prefix: Folder)
    requires Uploaded(keys, prefix)
    ensures BreadcrumbsLand(keys, prefix) <==> keys != [] || |prefix| == 1
  {
    if keys != [] || prefix == [""] {
      forall folder, target | HasPage(keys, prefix, folder) && BreadcrumbLinks(folder, target)
        ensures HasPage(keys, prefix, target)
      {
        var key := BelowPage(keys, prefix, folder);
        AboveKeyHasPage(keys, prefix, key, target);
      }
    } else if |prefix| > 1 {
      var target := prefix[..1];
      assert HasPage(keys, prefix, prefix) && BreadcrumbLinks(prefix, target);
      assert FilesIn(keys, target) == [];
    }
  }

  /** Every page but the root's lies above some uploaded key. */
  lemma BelowPage(keys: seq<Parts>, prefix: Folder, folder: Folder) returns (key: Parts)
    requires Uploaded(keys, prefix) && (keys != [] || prefix == [""])
    requires HasPage(keys, prefix, folder) && folder != [""]
    ensures key in keys && folder <= key && |folder| < |key|
  {
    if FilesIn(keys, folder) != [] {
      key := FilesIn(keys, folder)[0];
      FilesInMeaning(keys, folder, key);
    } else if c :| IsSubfolder(keys, folder, c) {
      key :| key in keys && 1 < |c| < |key| && c <= key && folder == c[..|c| - 1];
    } else {
      key := keys[0];
    }
  }
}
