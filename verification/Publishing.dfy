/** Publishing the collected document, and what the two scripts guarantee together. */
module Publishing {
  import opened Results
  import opened Ordering
  import opened JsonTrees
  import opened JsonDicts
  import opened Redaction

  // ---- Reading the recorded paths back ----

  function DecodePath(j: Json): (p: Option<Path>) {
    if j.List? && (forall i | 0 <= i < |j.items| :: j.items[i].Text?)
    then Some(seq(|j.items|, i requires 0 <= i < |j.items| => j.items[i].text))
    else None
  }

  function DecodePaths(j: Json): (ps: Option<seq<Path>>) {
    if j.List? && (forall i | 0 <= i < |j.items| :: DecodePath(j.items[i]).Some?)
    then Some(seq(|j.items|, i requires 0 <= i < |j.items| => DecodePath(j.items[i]).value))
    else None
  }

  lemma PathsRoundTrip(ps: seq<Path>)
    ensures DecodePaths(EncodePaths(ps)) == Some(ps)
  {
    forall i | 0 <= i < |ps| ensures DecodePath(EncodePath(ps[i])) == Some(ps[i]) {
      assert DecodePath(EncodePath(ps[i])).value == ps[i];
    }
    assert DecodePaths(EncodePaths(ps)).value == ps;
  }

  datatype PublishError = NoPathsRecorded | MalformedPaths | EmptyPath

  /** The published copy of a file. */
  function Publish(file: map<string, Json>): (r: Result<Json, PublishError>) {
    if PRIVATE_PATHS_KEY !in file then Failure(NoPathsRecorded)
    else
      match DecodePaths(file[PRIVATE_PATHS_KEY])
      case None => Failure(MalformedPaths)
      case Some(paths) =>
        if [] in paths then Failure(EmptyPath)
        else
          assert [] !in paths + [[PRIVATE_PATHS_KEY]];
          Success(DeleteAll(Obj(file), paths + [[PRIVATE_PATHS_KEY]]))
  }

  // ---- What is refused and what is published ----

  predicate IsTextList(j: Json) {
    j.List? && forall i | 0 <= i < |j.items| :: j.items[i].Text?
  }

  /** A list of lists of strings. */
  predicate IsPathList(j: Json) {
    j.List? && forall i | 0 <= i < |j.items| :: IsTextList(j.items[i])
  }

  predicate HasEmptyPath(j: Json) {
    j.List? && exists i | 0 <= i < |j.items| :: j.items[i].List? && j.items[i].items == []
  }

  /** The list has an entry with exactly the parts of the path. */
  ghost predicate ListsPath(j: Json, p: Path) {
    j.List? && exists i :: 0 <= i < |j.items| && SpellsPath(j.items[i], p)
  }

  ghost predicate SpellsPath(j: Json, p: Path) {
    j.List? && |j.items| == |p| && forall k | 0 <= k < |p| :: j.items[k] == Text(p[k])
  }

  lemma DecodedPaths(j: Json)
    ensures DecodePaths(j).Some? <==> IsPathList(j)
    ensures DecodePaths(j).Some? ==> forall p :: p in DecodePaths(j).value <==> ListsPath(j, p)
    ensures DecodePaths(j).Some? ==> ([] in DecodePaths(j).value <==> HasEmptyPath(j))
  {
    if j.List? {
      forall i | 0 <= i < |j.items| ensures DecodePath(j.items[i]).Some? <==> IsTextList(j.items[i]) {
      }
      if DecodePaths(j).Some? {
        var ps := DecodePaths(j).value;
        forall p ensures p in ps <==> ListsPath(j, p) {
          forall i | 0 <= i < |ps| ensures ps[i] == p <==> SpellsPath(j.items[i], p) {
          }
          if p in ps {
            var i :| 0 <= i < |ps| && ps[i] == p;
            assert SpellsPath(j.items[i], p);
          }
        }
        forall i | 0 <= i < |ps| ensures ps[i] == [] <==> j.items[i].items == [] {
        }
        if [] in ps {
          var i :| 0 <= i < |ps| && ps[i] == [];
        }
      }
    }
  }

  /** A file is published exactly when it records its private paths as a list of non-empty lists of strings;
      otherwise this is why it is refused. */
  lemma PublishedIff(file: map<string, Json>)
    ensures Publish(file).Success? <==>
              PRIVATE_PATHS_KEY in file && IsPathList(file[PRIVATE_PATHS_KEY]) && !HasEmptyPath(file[PRIVATE_PATHS_KEY])
    ensures Publish(file) == Failure(NoPathsRecorded) <==> PRIVATE_PATHS_KEY !in file
    ensures Publish(file) == Failure(MalformedPaths) <==>
              PRIVATE_PATHS_KEY in file && !IsPathList(file[PRIVATE_PATHS_KEY])
    ensures Publish(file) == Failure(EmptyPath) <==>
              PRIVATE_PATHS_KEY in file && IsPathList(file[PRIVATE_PATHS_KEY]) && HasEmptyPath(file[PRIVATE_PATHS_KEY])
  {
    if PRIVATE_PATHS_KEY in file {
      DecodedPaths(file[PRIVATE_PATHS_KEY]);
    }
  }

  /** What is published: nothing under a listed path or under the key of the paths, and the rest as it is. */
  lemma PublishedAt(file: map<string, Json>, q: Path)
    requires Publish(file).Success?
    ensures PRIVATE_PATHS_KEY in file
    ensures if (exists p :: ListsPath(file[PRIVATE_PATHS_KEY], p) && p <= q) || [PRIVATE_PATHS_KEY] <= q
            then Get(Publish(file).value, q) == None
            else SameNode(Get(Publish(file).value, q), Get(Obj(file), q))
  {
    var listed := DecodePaths(file[PRIVATE_PATHS_KEY]).value;
    DecodedPaths(file[PRIVATE_PATHS_KEY]);
    var all := listed + [[PRIVATE_PATHS_KEY]];
    assert [] !in all;
    DeleteAllMeaning(Obj(file), all, q);
    CoveredByOneMore(listed, [PRIVATE_PATHS_KEY], q);
    assert Covered(listed, q) <==> exists p :: ListsPath(file[PRIVATE_PATHS_KEY], p) && p <= q;
  }

  /** The upload works on the loaded dictionary and leaves it as it is. */
  method SanitizeForUpload(file: Dict) returns (r: Result<Dict, PublishError>)
    requires file.Valid()
    ensures var fields := file.Tree().fields;
            r.Success? <==> PRIVATE_PATHS_KEY in fields && IsPathList(fields[PRIVATE_PATHS_KEY]) &&
                            !HasEmptyPath(fields[PRIVATE_PATHS_KEY])
    ensures r.Success? <==> Publish(file.Tree().fields).Success?
    ensures r.Failure? ==> r.error == Publish(file.Tree().fields).error
    ensures r.Success? ==> r.value.Valid() && fresh(r.value.repr) && r.value.Tree() == Publish(file.Tree().fields).value
  {
    PublishedIff(file.Tree().fields);
    if PRIVATE_PATHS_KEY !in file.entries {
      return Failure(NoPathsRecorded);
    }
    assert file.Tree().fields[PRIVATE_PATHS_KEY] == file.EntryTree(PRIVATE_PATHS_KEY);
    if file.entries[PRIVATE_PATHS_KEY].Child? {
      return Failure(MalformedPaths);
    }
    var paths := DecodePaths(file.entries[PRIVATE_PATHS_KEY].json);
    if paths.None? {
      return Failure(MalformedPaths);
    }
    var sanitized := FilterSensitiveData(file, paths.value + [[PRIVATE_PATHS_KEY]]);
    assert [] in paths.value + [[PRIVATE_PATHS_KEY]] <==> [] in paths.value;
    if sanitized.None? {
      return Failure(EmptyPath);
    }
    assert Obj(file.Tree().fields) == file.Tree();
    return Success(sanitized.value);
  }

  /** The file on disk after a run. */
  ghost function OnDisk(existing: map<string, Json>, queries: seq<Query>, fetched: Answers, multi: set<string>):
    map<string, Json>
    requires |fetched| == |queries|
  {
    var written := RunFile(existing, queries, fetched, multi);
    if written.Some? then written.value else existing
  }

  // ---- Two runs that differ only in private values ----

  ghost predicate SameOutputs(a: seq<Output>, b: seq<Output>) {
    |a| == |b| &&
    forall i | 0 <= i < |a| ::
      a[i].key == b[i].key && a[i].marked == b[i].marked && (a[i].marked || a[i].value == b[i].value)
  }

  ghost predicate SameAnswer(a: Option<seq<Output>>, b: Option<seq<Output>>) {
    if a.Some? && b.Some? then SameOutputs(a.value, b.value) else a == b
  }

  ghost predicate SameAnswers(a: Answers, b: Answers) {
    |a| == |b| && forall i | 0 <= i < |a| :: SameAnswer(a[i], b[i])
  }

  lemma {:induction false} OutputsAgree(a: seq<Output>, b: seq<Output>)
    requires SameOutputs(a, b)
    ensures MarkedKeys(a) == MarkedKeys(b) && OutputValues(a).Keys == OutputValues(b).Keys
    ensures forall k | k in OutputValues(a) && k !in MarkedKeys(a) :: OutputValues(a)[k] == OutputValues(b)[k]
    ensures StackOutputs(a).1 == StackOutputs(b).1
    decreases |a|
  {
    if a != [] {
      OutputsAgree(a[..|a| - 1], b[..|b| - 1]);
    }
  }

  ghost predicate LongPaths(ps: seq<Path>) {
    forall p | p in ps :: |p| >= 2
  }

  ghost predicate MergesAgree(a: Merge, b: Merge) {
    && a.paths == b.paths && a.updated == b.updated && LongPaths(a.paths)
    && AgreeOff(Obj(a.data), Obj(b.data), a.paths)
    && AgreeOff(Obj(RegionEntries(a.regions)), Obj(RegionEntries(b.regions)), a.paths)
  }

  /** Top-level keys are never covered, so agreeing documents have the same ones. */
  lemma AgreeingKeys(a: map<string, Json>, b: map<string, Json>, ps: seq<Path>)
    requires LongPaths(ps) && AgreeOff(Obj(a), Obj(b), ps)
    ensures a.Keys == b.Keys
    ensures forall k | k in a :: a[k] == b[k] || (a[k].Obj? && b[k].Obj?)
  {
    forall k ensures k in a <==> k in b
             ensures k in a && k in b ==> a[k] == b[k] || (a[k].Obj? && b[k].Obj?) {
      assert !Covered(ps, [] + [k]);
      assert SameNode(Get(Obj(a), [k]), Get(Obj(b), [k]));
      GetKey(Obj(a), k);
      GetKey(Obj(b), k);
    }
  }

  lemma ExtendsByHead(prefix: Path, q: Path)
    requires q != []
    ensures prefix + [q[0]] <= prefix + q
  {
    assert q == [q[0]] + q[1..];
    assert prefix + q == prefix + [q[0]] + q[1..];
  }

  lemma MarkedIsCovered(outputs: seq<Output>, prefix: Path, q: Path)
    requires q != [] && q[0] in MarkedKeys(outputs)
    ensures Covered(PrefixAll(prefix, StackOutputs(outputs).1), prefix + q)
  {
    var p := prefix + [q[0]];
    SortListMembers(MarkedKeys(outputs), LexLeq, q[0]);
    PrefixAllHas(prefix, StackOutputs(outputs).1, q[0]);
    ExtendsByHead(prefix, q);
  }

  /** The outputs of one stack, placed under `prefix`, agree off their marked keys. */
  lemma ValuesAgree(a: seq<Output>, b: seq<Output>, prefix: Path)
    requires SameOutputs(a, b)
    ensures AgreeUnder(prefix, Obj(OutputValues(a)), Obj(OutputValues(b)), PrefixAll(prefix, StackOutputs(a).1))
  {
    OutputsAgree(a, b);
    var ps := PrefixAll(prefix, StackOutputs(a).1);
    forall q | !Covered(ps, prefix + q) ensures SameNode(Get(Obj(OutputValues(a)), q), Get(Obj(OutputValues(b)), q)) {
      if q != [] && q[0] in MarkedKeys(a) {
        MarkedIsCovered(a, prefix, q);
      }
    }
  }

  // ---- One step of the merge ----

  lemma MorePathsLong(ps: seq<Path>, prefix: Path, keys: seq<string>)
    requires LongPaths(ps) && prefix != []
    ensures LongPaths(ps + PrefixAll(prefix, keys))
  {
    forall p | p in PrefixAll(prefix, keys) ensures |p| >= 2 {
      var k := PrefixAllOnly(prefix, keys, p);
    }
  }

  lemma SingleStackAgrees(a: Merge, b: Merge, q: Query, x: seq<Output>, y: seq<Output>, multi: set<string>)
    requires MergesAgree(a, b) && q.name !in multi && SameOutputs(x, y)
    ensures MergesAgree(MergeOne(a, q, Some(x), multi), MergeOne(b, q, Some(y), multi))
  {
    OutputsAgree(x, y);
    var more := PrefixAll([q.name], StackOutputs(x).1);
    MorePathsLong(a.paths, [q.name], StackOutputs(x).1);
    AgreeMore([], Obj(RegionEntries(a.regions)), Obj(RegionEntries(b.regions)), a.paths, a.paths + more);
    PutStackAgrees(a.data, b.data, q.name, x, y, a.paths);
  }

  lemma PutStackAgrees(a: map<string, Json>, b: map<string, Json>, name: string, x: seq<Output>, y: seq<Output>,
                       ps: seq<Path>)
    requires AgreeOff(Obj(a), Obj(b), ps) && SameOutputs(x, y)
    ensures AgreeOff(Obj(a[name := Obj(OutputValues(x))]), Obj(b[name := Obj(OutputValues(y))]),
                     ps + PrefixAll([name], StackOutputs(x).1))
  {
    var more := PrefixAll([name], StackOutputs(x).1);
    AgreeMore([], Obj(a), Obj(b), ps, ps + more);
    ValuesAgree(x, y, [name]);
    AgreeMore([name], Obj(OutputValues(x)), Obj(OutputValues(y)), more, ps + more);
    assert [] + [name] == [name];
    PutAgrees([], a, b, name, Obj(OutputValues(x)), Obj(OutputValues(y)), ps + more);
  }

  lemma GoneStackAgrees(a: Merge, b: Merge, q: Query, multi: set<string>)
    requires MergesAgree(a, b)
    ensures MergesAgree(MergeOne(a, q, None, multi), MergeOne(b, q, None, multi))
  {
    AgreeingKeys(a.data, b.data, a.paths);
    var a', b' := MergeOne(a, q, None, multi), MergeOne(b, q, None, multi);
    forall r | !Covered(a.paths, [] + r) ensures SameNode(Get(Obj(a'.data), r), Get(Obj(b'.data), r)) {
      assert SameNode(Get(Obj(a.data), r), Get(Obj(b.data), r));
    }
  }

  function KnownRegions(regions: map<string, map<string, Json>>, name: string): map<string, Json> {
    if name in regions then regions[name] else map[]
  }

  lemma KnownRegionsAgree(a: map<string, map<string, Json>>, b: map<string, map<string, Json>>, name: string,
                          ps: seq<Path>)
    requires LongPaths(ps) && AgreeOff(Obj(RegionEntries(a)), Obj(RegionEntries(b)), ps)
    ensures AgreeUnder([name, "regions"], Obj(KnownRegions(a, name)), Obj(KnownRegions(b, name)), ps)
  {
    AgreeingKeys(RegionEntries(a), RegionEntries(b), ps);
    if name in a {
      KeyAgrees([], RegionEntries(a), RegionEntries(b), name, ps);
      assert [] + [name] == [name] && [name] + ["regions"] == [name, "regions"];
      KeyAgrees([name], RegionsEntry(a[name]).fields, RegionsEntry(b[name]).fields, "regions", ps);
      assert RegionsEntry(a[name]).fields["regions"] == Obj(KnownRegions(a, name));
      assert name in b && RegionsEntry(b[name]).fields["regions"] == Obj(KnownRegions(b, name));
    } else {
      assert name !in RegionEntries(a) && name !in b;
    }
  }

  /** Setting one region of one stack, as a change to the document of all region entries. */
  lemma PutRegionAgrees(a: map<string, map<string, Json>>, b: map<string, map<string, Json>>, name: string,
                        region: string, x: Json, y: Json, ps: seq<Path>)
    requires LongPaths(ps) && AgreeOff(Obj(RegionEntries(a)), Obj(RegionEntries(b)), ps)
    requires AgreeUnder([name, "regions", region], x, y, ps)
    ensures AgreeOff(Obj(RegionEntries(a[name := KnownRegions(a, name)[region := x]])),
                     Obj(RegionEntries(b[name := KnownRegions(b, name)[region := y]])), ps)
  {
    var known, known' := KnownRegions(a, name)[region := x], KnownRegions(b, name)[region := y];
    KnownRegionsAgree(a, b, name, ps);
    assert [name, "regions"] + [region] == [name, "regions", region];
    PutAgrees([name, "regions"], KnownRegions(a, name), KnownRegions(b, name), region, x, y, ps);
    assert [name] + ["regions"] == [name, "regions"] && [] + [name] == [name];
    PutAgrees([name], map[], map[], "regions", Obj(known), Obj(known'), ps);
    PutAgrees([], RegionEntries(a), RegionEntries(b), name, RegionsEntry(known), RegionsEntry(known'), ps);
    RegionEntryPut(a, name, known);
    RegionEntryPut(b, name, known');
  }

  lemma RegionEntryPut(a: map<string, map<string, Json>>, name: string, known: map<string, Json>)
    ensures RegionEntries(a[name := known]) == RegionEntries(a)[name := RegionsEntry(known)]
  {
  }

  lemma RegionStackAgrees(a: Merge, b: Merge, q: Query, x: seq<Output>, y: seq<Output>, multi: set<string>)
    requires MergesAgree(a, b) && q.name in multi && SameOutputs(x, y)
    ensures MergesAgree(MergeOne(a, q, Some(x), multi), MergeOne(b, q, Some(y), multi))
  {
    OutputsAgree(x, y);
    var prefix := [q.name, "regions", q.region];
    var more := PrefixAll(prefix, StackOutputs(x).1);
    var paths := a.paths + more;
    MorePathsLong(a.paths, prefix, StackOutputs(x).1);
    AgreeMore([], Obj(a.data), Obj(b.data), a.paths, paths);
    AgreeMore([], Obj(RegionEntries(a.regions)), Obj(RegionEntries(b.regions)), a.paths, paths);
    ValuesAgree(x, y, prefix);
    AgreeMore(prefix, Obj(OutputValues(x)), Obj(OutputValues(y)), more, paths);
    PutRegionAgrees(a.regions, b.regions, q.name, q.region, Obj(OutputValues(x)), Obj(OutputValues(y)), paths);
  }

  lemma {:induction false} RunsAgree(existing: map<string, Json>, queries: seq<Query>, f: Answers,
                                     f': Answers, multi: set<string>)
    requires |f| == |queries| && SameAnswers(f, f')
    ensures MergesAgree(MergeAll(existing, queries, f, multi), MergeAll(existing, queries, f', multi))
    decreases |queries|
  {
    if queries != [] {
      var n := |queries| - 1;
      RunsAgree(existing, queries[..n], f[..n], f'[..n], multi);
      var a, b := MergeAll(existing, queries[..n], f[..n], multi), MergeAll(existing, queries[..n], f'[..n], multi);
      assert SameAnswer(f[n], f'[n]);
      if f[n].None? {
        GoneStackAgrees(a, b, queries[n], multi);
      } else if queries[n].name in multi {
        RegionStackAgrees(a, b, queries[n], f[n].value, f'[n].value, multi);
      } else {
        SingleStackAgrees(a, b, queries[n], f[n].value, f'[n].value, multi);
      }
    }
  }

  // ---- Main result: private values never influence what is published ----

  lemma {:induction false} UnionAgrees(a: map<string, Json>, b: map<string, Json>, x: map<string, Json>,
                                       y: map<string, Json>, ps: seq<Path>)
    requires LongPaths(ps) && AgreeOff(Obj(a), Obj(b), ps) && AgreeOff(Obj(x), Obj(y), ps)
    ensures AgreeOff(Obj(a + x), Obj(b + y), ps)
  {
    AgreeingKeys(x, y, ps);
    forall r | !Covered(ps, [] + r) ensures SameNode(Get(Obj(a + x), r), Get(Obj(b + y), r)) {
      assert SameNode(Get(Obj(a), r), Get(Obj(b), r));
      assert SameNode(Get(Obj(x), r), Get(Obj(y), r));
    }
  }

  /** Both runs write, or neither does; what they write records the same paths and agrees off them. */
  lemma FilesAgree(existing: map<string, Json>, queries: seq<Query>, f: Answers,
                   f': Answers, multi: set<string>)
    requires |f| == |queries| && SameAnswers(f, f')
    ensures var w, w' := RunFile(existing, queries, f, multi), RunFile(existing, queries, f', multi);
            var paths := SortList(MergeAll(existing, queries, f, multi).paths, PathLeq);
            && (w.Some? <==> w'.Some?)
            && LongPaths(paths)
            && (w.Some? ==> AgreeOff(Obj(w.value), Obj(w'.value), paths))
            && (w.Some? ==> PRIVATE_PATHS_KEY in w.value && w.value[PRIVATE_PATHS_KEY] == EncodePaths(paths))
            && (w'.Some? ==> PRIVATE_PATHS_KEY in w'.value && w'.value[PRIVATE_PATHS_KEY] == EncodePaths(paths))
  {
    RunsAgree(existing, queries, f, f', multi);
    MergedFilesAgree(MergeAll(existing, queries, f, multi), MergeAll(existing, queries, f', multi));
  }

  lemma MergedFilesAgree(a: Merge, b: Merge)
    requires MergesAgree(a, b)
    ensures var w, w', paths := FileOf(a), FileOf(b), SortList(a.paths, PathLeq);
            && (w.Some? <==> w'.Some?)
            && LongPaths(paths)
            && (w.Some? ==> AgreeOff(Obj(w.value), Obj(w'.value), paths))
            && (w.Some? ==> PRIVATE_PATHS_KEY in w.value && w.value[PRIVATE_PATHS_KEY] == EncodePaths(paths))
            && (w'.Some? ==> PRIVATE_PATHS_KEY in w'.value && w'.value[PRIVATE_PATHS_KEY] == EncodePaths(paths))
  {
    var x, y, paths := MergedDataAgree(a, b);
    FileParts(a);
    FileParts(b);
    PutAgrees([], x, y, PRIVATE_PATHS_KEY, EncodePaths(paths), EncodePaths(paths), paths);
  }

  /** Whether a file is written, and what is in it. */
  lemma FileParts(m: Merge)
    ensures var data, paths := m.data + RegionEntries(m.regions), EncodePaths(SortList(m.paths, PathLeq));
            && (FileOf(m).None? <==> m.updated + |m.regions| == 0 && PRIVATE_PATHS_KEY in data &&
                                     data[PRIVATE_PATHS_KEY] == paths)
            && (FileOf(m).Some? ==> FileOf(m).value == data[PRIVATE_PATHS_KEY := paths])
  {
  }

  lemma SameRegionCount(a: map<string, map<string, Json>>, b: map<string, map<string, Json>>, ps: seq<Path>)
    requires LongPaths(ps) && AgreeOff(Obj(RegionEntries(a)), Obj(RegionEntries(b)), ps)
    ensures |a| == |b|
  {
    AgreeingKeys(RegionEntries(a), RegionEntries(b), ps);
    assert a.Keys == RegionEntries(a).Keys && b.Keys == RegionEntries(b).Keys;
    assert |a| == |a.Keys| == |b.Keys| == |b|;
  }

  /** The data of both files before the paths are recorded, and the paths. */
  lemma MergedDataAgree(a: Merge, b: Merge) returns (x: map<string, Json>, y: map<string, Json>, paths: seq<Path>)
    requires MergesAgree(a, b)
    ensures x == a.data + RegionEntries(a.regions) && y == b.data + RegionEntries(b.regions)
    ensures paths == SortList(a.paths, PathLeq) && LongPaths(paths)
    ensures |a.regions| == |b.regions| && AgreeOff(Obj(x), Obj(y), paths)
    ensures x.Keys == y.Keys && forall k | k in x :: x[k] == y[k] || (x[k].Obj? && y[k].Obj?)
  {
    SameRegionCount(a.regions, b.regions, a.paths);
    UnionAgrees(a.data, b.data, RegionEntries(a.regions), RegionEntries(b.regions), a.paths);
    x, y := a.data + RegionEntries(a.regions), b.data + RegionEntries(b.regions);
    AgreeingKeys(x, y, a.paths);
    paths := SortList(a.paths, PathLeq);
    forall p ensures p in paths <==> p in a.paths {
      SortListMembers(a.paths, PathLeq, p);
    }
    AgreeMore([], Obj(x), Obj(y), a.paths, paths);
  }

  /** Two runs from the same file whose answers differ only in values of marked outputs publish equal
      documents, whether or not they write the file. */
  lemma RedactionComplete(existing: map<string, Json>, queries: seq<Query>, f: Answers,
                          f': Answers, multi: set<string>)
    requires |f| == |queries| && SameAnswers(f, f')
    ensures Publish(OnDisk(existing, queries, f, multi)) == Publish(OnDisk(existing, queries, f', multi))
  {
    FilesAgree(existing, queries, f, f', multi);
    var w, w' := RunFile(existing, queries, f, multi), RunFile(existing, queries, f', multi);
    var paths := SortList(MergeAll(existing, queries, f, multi).paths, PathLeq);
    if w.Some? {
      PathsRoundTrip(paths);
      var all := paths + [[PRIVATE_PATHS_KEY]];
      AgreeMore([], Obj(w.value), Obj(w'.value), paths, all);
      assert [] !in paths && [] !in all;
      DeleteAllEqualIff(Obj(w.value), Obj(w'.value), all);
    }
  }
}
