/** What happens to each output and to each earlier entry on the way to the published document. */
module Retention {
  import opened Results
  import opened Ordering
  import opened JsonTrees
  import opened Redaction
  import opened Publishing

  /** Only a multi-region stack is asked for twice, and then in different regions. */
  ghost predicate DistinctQueries(queries: seq<Query>, multi: set<string>) {
    forall i, j | 0 <= i < j < |queries| && queries[i].name == queries[j].name ::
      queries[i].name in multi && queries[i].region != queries[j].region
  }

  /** Resolved names are distinct, and no stack lists a region twice. */
  ghost predicate DistinctTargets(targets: seq<Target>) {
    && (forall i, j | 0 <= i < j < |targets| :: targets[i].name != targets[j].name)
    && (forall t, a, b | t in targets && 0 <= a < b < |t.regions| :: t.regions[a] != t.regions[b])
  }

  lemma {:induction false} QueryHasTarget(targets: seq<Target>, region: string, i: nat)
    requires i < |Queries(targets, region)|
    ensures exists t :: t in targets && t.name == Queries(targets, region)[i].name
    decreases |targets|
  {
    var front, last := targets[..|targets| - 1], targets[|targets| - 1];
    assert targets == front + [last];
    if i < |Queries(front, region)| {
      QueryHasTarget(front, region, i);
    } else {
      assert Queries(targets, region)[i] in QueriesOf(last, region);
    }
  }

  /** Distinct targets give distinct queries. */
  lemma OwnQueries(t: Target, region: string)
    requires forall a, b | 0 <= a < b < |t.regions| :: t.regions[a] != t.regions[b]
    ensures var own := QueriesOf(t, region);
            && (forall i | 0 <= i < |own| :: own[i].name == t.name)
            && (forall i, j | 0 <= i < j < |own| :: t.regions != [] && own[i].region != own[j].region)
  {
    TargetQueries(t, region);
  }

  lemma {:induction false} TargetsGiveDistinctQueries(targets: seq<Target>, region: string)
    requires DistinctTargets(targets)
    ensures DistinctQueries(Queries(targets, region), MultiRegionNames(targets))
    decreases |targets|
  {
    if targets != [] {
      var front, last := targets[..|targets| - 1], targets[|targets| - 1];
      assert targets == front + [last];
      TargetsGiveDistinctQueries(front, region);
      var before, own := Queries(front, region), QueriesOf(last, region);
      var all := Queries(targets, region);
      assert all == before + own;
      OwnQueries(last, region);
      forall i, j | 0 <= i < j < |all| && all[i].name == all[j].name
        ensures all[i].name in MultiRegionNames(targets) && all[i].region != all[j].region
      {
        if i < |before| {
          QueryHasTarget(front, region, i);
        }
        if i >= |before| {
          assert all[i] == own[i - |before|] && all[j] == own[j - |before|];
        }
      }
    }
  }

  /** Where the outputs of a query end up. */
  function PlaceOf(q: Query, multi: set<string>): Path {
    if q.name in multi then [q.name, "regions", q.region] else [q.name]
  }

  // ---- The recorded paths are exactly the marked outputs ----

  lemma {:induction false} PathOrigin(existing: map<string, Json>, queries: seq<Query>, fetched: Answers,
                                      multi: set<string>, p: Path) returns (j: nat, k: string)
    requires |fetched| == |queries| && p in MergeAll(existing, queries, fetched, multi).paths
    ensures j < |queries| && fetched[j].Some? && k in MarkedKeys(fetched[j].value)
    ensures p == PlaceOf(queries[j], multi) + [k]
    decreases |queries|
  {
    var n := |queries| - 1;
    var before := MergeAll(existing, queries[..n], fetched[..n], multi);
    if p in before.paths {
      j, k := PathOrigin(existing, queries[..n], fetched[..n], multi, p);
    } else {
      j := n;
      var marked := StackOutputs(fetched[n].value).1;
      k := PrefixAllOnly(PlaceOf(queries[n], multi), marked, p);
      SortListMembers(MarkedKeys(fetched[n].value), LexLeq, k);
    }
  }

  lemma {:induction false} PathRecorded(existing: map<string, Json>, queries: seq<Query>, fetched: Answers,
                                        multi: set<string>, j: nat, k: string)
    requires |fetched| == |queries| && j < |queries| && fetched[j].Some? && k in MarkedKeys(fetched[j].value)
    ensures PlaceOf(queries[j], multi) + [k] in MergeAll(existing, queries, fetched, multi).paths
    decreases |queries|
  {
    var n := |queries| - 1;
    var before := MergeAll(existing, queries[..n], fetched[..n], multi);
    assert MergeAll(existing, queries, fetched, multi) == MergeOne(before, queries[n], fetched[n], multi);
    if j < n {
      PathRecorded(existing, queries[..n], fetched[..n], multi, j, k);
      PathsKept(before, queries[n], fetched[n], multi, PlaceOf(queries[j], multi) + [k]);
    } else {
      PathAdded(before, queries[n], fetched[n].value, multi, k);
    }
  }

  lemma PathAdded(m: Merge, q: Query, outputs: seq<Output>, multi: set<string>, k: string)
    requires k in MarkedKeys(outputs)
    ensures PlaceOf(q, multi) + [k] in MergeOne(m, q, Some(outputs), multi).paths
  {
    SortListMembers(MarkedKeys(outputs), LexLeq, k);
    PrefixAllHas(PlaceOf(q, multi), StackOutputs(outputs).1, k);
  }

  lemma PathsKept(m: Merge, q: Query, result: Option<seq<Output>>, multi: set<string>, p: Path)
    requires p in m.paths
    ensures p in MergeOne(m, q, result, multi).paths
  {
  }

  lemma {:induction false} RegionsAreMulti(existing: map<string, Json>, queries: seq<Query>, fetched: Answers,
                                           multi: set<string>)
    requires |fetched| == |queries|
    ensures MergeAll(existing, queries, fetched, multi).regions.Keys <= multi
    decreases |queries|
  {
    if queries != [] {
      var n := |queries| - 1;
      RegionsAreMulti(existing, queries[..n], fetched[..n], multi);
    }
  }

  /** The outputs of a fetched stack are in the merged state. */
  ghost predicate Holds(m: Merge, q: Query, values: map<string, Json>, multi: set<string>) {
    if q.name in multi
    then q.name in m.regions && q.region in m.regions[q.name] && m.regions[q.name][q.region] == Obj(values)
    else q.name in m.data && m.data[q.name] == Obj(values) && m.updated > 0
  }

  lemma {:induction false} FetchedIsHeld(existing: map<string, Json>, queries: seq<Query>, fetched: Answers,
                                         multi: set<string>, i: nat)
    requires |fetched| == |queries| && i < |queries| && fetched[i].Some? && DistinctQueries(queries, multi)
    ensures Holds(MergeAll(existing, queries, fetched, multi), queries[i], OutputValues(fetched[i].value), multi)
    decreases |queries|
  {
    var n := |queries| - 1;
    if i < n {
      FetchedIsHeld(existing, queries[..n], fetched[..n], multi, i);
      var before := MergeAll(existing, queries[..n], fetched[..n], multi);
      HeldIsKept(before, queries[i], OutputValues(fetched[i].value), queries[n], fetched[n], multi);
    }
  }

  /** Merging another query leaves what is held. */
  lemma HeldIsKept(m: Merge, q: Query, values: map<string, Json>, other: Query, result: Option<seq<Output>>,
                   multi: set<string>)
    requires Holds(m, q, values, multi)
    requires q.name == other.name ==> q.name in multi && q.region != other.region
    ensures Holds(MergeOne(m, other, result, multi), q, values, multi)
  {
  }

  // ---- The file a run leaves ----

  /** Written or not, the file records the paths of this run, and only dropped nulls tell it apart from
      the merged document. */
  lemma FileAfterRun(existing: map<string, Json>, queries: seq<Query>, fetched: Answers, multi: set<string>)
    requires |fetched| == |queries|
    ensures var m := MergeAll(existing, queries, fetched, multi);
            var file := OnDisk(existing, queries, fetched, multi);
            && PRIVATE_PATHS_KEY in file && file[PRIVATE_PATHS_KEY] == EncodePaths(SortList(m.paths, PathLeq))
            && (forall n | n in m.data + RegionEntries(m.regions) && n != PRIVATE_PATHS_KEY ::
                  n in file && file[n] == (m.data + RegionEntries(m.regions))[n])
            && (forall n | n in file && n !in m.data + RegionEntries(m.regions) && n != PRIVATE_PATHS_KEY ::
                  file[n] == Null)
  {
    if RunFile(existing, queries, fetched, multi).None? {
      UnwrittenFile(existing, queries, fetched, multi);
    }
  }

  lemma UnwrittenFile(existing: map<string, Json>, queries: seq<Query>, fetched: Answers, multi: set<string>)
    requires |fetched| == |queries| && RunFile(existing, queries, fetched, multi).None?
    ensures var m := MergeAll(existing, queries, fetched, multi);
            && m.data + RegionEntries(m.regions) == m.data
            && PRIVATE_PATHS_KEY in existing && existing[PRIVATE_PATHS_KEY] == EncodePaths(SortList(m.paths, PathLeq))
            && (forall n | n in m.data :: n in existing && m.data[n] == existing[n])
            && (forall n | n in existing && n !in m.data :: existing[n] == Null)
  {
    var m := MergeAll(existing, queries, fetched, multi);
    assert |m.regions| == 0 && m.regions == map[];
    assert RegionEntries(m.regions) == map[];
    assert m.data + RegionEntries(m.regions) == m.data;
    NothingUpdated(existing, queries, fetched, multi);
  }

  lemma {:induction false} NothingUpdated(existing: map<string, Json>, queries: seq<Query>,
                                          fetched: Answers, multi: set<string>)
    requires |fetched| == |queries| && MergeAll(existing, queries, fetched, multi).updated == 0
    ensures var data := MergeAll(existing, queries, fetched, multi).data;
            && (forall n | n in data :: n in existing && data[n] == existing[n])
            && (forall n | n in existing && n !in data :: existing[n] == Null)
    decreases |queries|
  {
    if queries != [] {
      var n := |queries| - 1;
      NothingUpdated(existing, queries[..n], fetched[..n], multi);
    }
  }

  /** The run found nothing to change: no stack, and no entry of a gone one. */
  ghost predicate Quiet(existing: map<string, Json>, queries: seq<Query>, fetched: Answers, multi: set<string>)
    requires |fetched| == |queries|
  {
    forall i | 0 <= i < |queries| ::
      fetched[i].None? &&
      (queries[i].name in multi || queries[i].name !in existing || existing[queries[i].name] == Null)
  }

  lemma {:induction false} QuietIff(existing: map<string, Json>, queries: seq<Query>, fetched: Answers,
                                    multi: set<string>)
    requires |fetched| == |queries|
    ensures var m := MergeAll(existing, queries, fetched, multi);
            && (Quiet(existing, queries, fetched, multi) <==> m.updated == 0 && m.regions == map[])
            && (Quiet(existing, queries, fetched, multi) ==> m.paths == [])
    decreases |queries|
  {
    if queries != [] {
      var n := |queries| - 1;
      QuietIff(existing, queries[..n], fetched[..n], multi);
      QuietNext(existing, queries, fetched, multi);
      var before := MergeAll(existing, queries[..n], fetched[..n], multi);
      if before.updated == 0 {
        NothingUpdated(existing, queries[..n], fetched[..n], multi);
      }
    }
  }

  lemma QuietNext(existing: map<string, Json>, queries: seq<Query>, fetched: Answers, multi: set<string>)
    requires |fetched| == |queries| && queries != []
    ensures var n := |queries| - 1;
            Quiet(existing, queries, fetched, multi) <==>
            Quiet(existing, queries[..n], fetched[..n], multi) && fetched[n].None? &&
            (queries[n].name in multi || queries[n].name !in existing || existing[queries[n].name] == Null)
  {
  }

  /** Exactly when the file is left as it is: nothing to change, and no private path recorded in it. */
  lemma NothingWrittenIff(existing: map<string, Json>, queries: seq<Query>, fetched: Answers, multi: set<string>)
    requires |fetched| == |queries|
    ensures RunFile(existing, queries, fetched, multi).None? <==>
              Quiet(existing, queries, fetched, multi) &&
              PRIVATE_PATHS_KEY in existing && existing[PRIVATE_PATHS_KEY] == List([])
  {
    var m := MergeAll(existing, queries, fetched, multi);
    QuietIff(existing, queries, fetched, multi);
    if |m.regions| == 0 {
      assert m.regions == map[] && RegionEntries(m.regions) == map[];
      assert m.data + RegionEntries(m.regions) == m.data;
    }
    if Quiet(existing, queries, fetched, multi) {
      NothingUpdated(existing, queries, fetched, multi);
      assert EncodePaths(SortList(m.paths, PathLeq)) == List([]);
    }
  }

  /** What the published document is, in terms of the file and this run's paths. */
  lemma PublishedDocument(existing: map<string, Json>, queries: seq<Query>, fetched: Answers,
                          multi: set<string>) returns (all: seq<Path>)
    requires |fetched| == |queries|
    ensures [] !in all
    ensures forall p :: p in all <==> p in MergeAll(existing, queries, fetched, multi).paths || p == [PRIVATE_PATHS_KEY]
    ensures Publish(OnDisk(existing, queries, fetched, multi)) ==
            Success(DeleteAll(Obj(OnDisk(existing, queries, fetched, multi)), all))
  {
    var m := MergeAll(existing, queries, fetched, multi);
    all := PublishedPaths(existing, queries, fetched, multi);
    forall p ensures p in SortList(m.paths, PathLeq) <==> p in m.paths {
      SortListMembers(m.paths, PathLeq, p);
    }
  }

  lemma HeldIsInFile(existing: map<string, Json>, queries: seq<Query>, fetched: Answers, multi: set<string>,
                     i: nat, k: string)
    requires |fetched| == |queries| && i < |queries| && fetched[i].Some? && DistinctQueries(queries, multi)
    requires queries[i].name != PRIVATE_PATHS_KEY
    ensures Get(Obj(OnDisk(existing, queries, fetched, multi)), PlaceOf(queries[i], multi) + [k]) ==
            var values := OutputValues(fetched[i].value);
            if k in values then Some(values[k]) else None
  {
    var q, values := queries[i], OutputValues(fetched[i].value);
    var file := OnDisk(existing, queries, fetched, multi);
    var m := MergeAll(existing, queries, fetched, multi);
    FileAfterRun(existing, queries, fetched, multi);
    FetchedIsHeld(existing, queries, fetched, multi, i);
    RegionsAreMulti(existing, queries, fetched, multi);
    if q.name in multi {
      assert file[q.name] == RegionsEntry(m.regions[q.name]);
      assert [q.name, "regions", q.region] + [k] == [q.name] + (["regions"] + ([q.region] + [k]));
      GetUnder(Obj(file), q.name, ["regions"] + ([q.region] + [k]));
      GetUnder(file[q.name], "regions", [q.region] + [k]);
      GetUnder(Obj(m.regions[q.name]), q.region, [k]);
      GetKey(Obj(values), k);
    } else {
      assert file[q.name] == Obj(values);
      GetUnder(Obj(file), q.name, [k]);
      GetKey(Obj(values), k);
    }
  }

  /** A recorded path that leads to this output is its own. */
  lemma CoveringPathIsOwn(queries: seq<Query>, multi: set<string>, i: nat, j: nat, k: string, k': string)
    requires i < |queries| && j < |queries| && DistinctQueries(queries, multi)
    requires PlaceOf(queries[j], multi) + [k'] <= PlaceOf(queries[i], multi) + [k]
    ensures j == i && k' == k
  {
    var a, b := PlaceOf(queries[j], multi) + [k'], PlaceOf(queries[i], multi) + [k];
    assert a[0] == b[0] && queries[j].name == queries[i].name;
    assert a == b[..|a|];
    if queries[i].name in multi {
      assert a[2] == b[2] && a[3] == b[3];
    } else {
      assert a[1] == b[1];
    }
  }

  /** Of a stack fetched in the run, exactly the unmarked outputs are published, with the value of the last
      output under the key; an output that only an earlier run stored is gone. */
  lemma FetchedOutputs(existing: map<string, Json>, queries: seq<Query>, fetched: Answers, multi: set<string>,
                       i: nat, k: string)
    requires |fetched| == |queries| && i < |queries| && fetched[i].Some? && DistinctQueries(queries, multi)
    requires queries[i].name != PRIVATE_PATHS_KEY
    ensures var published := Publish(OnDisk(existing, queries, fetched, multi));
            var q, outputs := queries[i], fetched[i].value;
            var place := if q.name in multi then [q.name, "regions", q.region, k] else [q.name, k];
            && published.Success?
            && (forall l: nat | LastOfKey(outputs, l) && outputs[l].key == k ::
                  Get(published.value, place) ==
                  if exists o :: o in outputs && o.key == k && o.marked then None else Some(Text(outputs[l].value)))
            && ((forall o | o in outputs :: o.key != k) ==> Get(published.value, place) == None)
  {
    PublishedOutput(existing, queries, fetched, multi, i, k);
    MarkedMeaning(fetched[i].value, k);
    var q := queries[i];
    assert PlaceOf(q, multi) + [k] == if q.name in multi then [q.name, "regions", q.region, k] else [q.name, k];
    forall l: nat | LastOfKey(fetched[i].value, l) && fetched[i].value[l].key == k
      ensures k in OutputValues(fetched[i].value)
      ensures OutputValues(fetched[i].value)[k] == Text(fetched[i].value[l].value)
    {
      OutputValuesLast(fetched[i].value, l);
    }
  }

  lemma PublishedOutput(existing: map<string, Json>, queries: seq<Query>, fetched: Answers, multi: set<string>,
                        i: nat, k: string)
    requires |fetched| == |queries| && i < |queries| && fetched[i].Some? && DistinctQueries(queries, multi)
    requires queries[i].name != PRIVATE_PATHS_KEY
    ensures var published := Publish(OnDisk(existing, queries, fetched, multi));
            var values := OutputValues(fetched[i].value);
            && published.Success?
            && Get(published.value, PlaceOf(queries[i], multi) + [k]) ==
               if k in values && k !in MarkedKeys(fetched[i].value) then Some(values[k]) else None
  {
    var all := PublishedDocument(existing, queries, fetched, multi);
    var path := PlaceOf(queries[i], multi) + [k];
    DeleteAllMeaning(Obj(OnDisk(existing, queries, fetched, multi)), all, path);
    HeldIsInFile(existing, queries, fetched, multi, i, k);
    if k in OutputValues(fetched[i].value) {
      OutputsAreText(fetched[i].value, k);
    }
    if k in MarkedKeys(fetched[i].value) {
      PathRecorded(existing, queries, fetched, multi, i, k);
      assert path <= path && path in all;
    } else if Covered(all, path) {
      var p :| p in all && p <= path;
      assert p != [] && p[0] == path[0] == queries[i].name;
      if p != [PRIVATE_PATHS_KEY] {
        var j, k' := PathOrigin(existing, queries, fetched, multi, p);
        CoveringPathIsOwn(queries, multi, i, j, k, k');
      }
    }
  }

  lemma {:induction false} OutputsAreText(outputs: seq<Output>, k: string)
    requires k in OutputValues(outputs)
    ensures OutputValues(outputs)[k].Text?
    decreases |outputs|
  {
    if outputs[|outputs| - 1].key != k {
      OutputsAreText(outputs[..|outputs| - 1], k);
    }
  }

  // ---- Entries the run does not refresh ----

  lemma {:induction false} GoneIsDropped(existing: map<string, Json>, queries: seq<Query>, fetched: Answers,
                                         multi: set<string>, i: nat)
    requires |fetched| == |queries| && i < |queries| && fetched[i].None? && DistinctQueries(queries, multi)
    requires queries[i].name !in multi
    ensures queries[i].name !in MergeAll(existing, queries, fetched, multi).data
    decreases |queries|
  {
    var n := |queries| - 1;
    if i < n {
      GoneIsDropped(existing, queries[..n], fetched[..n], multi, i);
    }
  }

  /** A single-region stack that is gone loses its entry. Only an entry that was null already can stay, when
      nothing else makes the run write the file. */
  lemma GoneStackLosesEntry(existing: map<string, Json>, queries: seq<Query>, fetched: Answers,
                            multi: set<string>, i: nat)
    requires |fetched| == |queries| && i < |queries| && fetched[i].None? && DistinctQueries(queries, multi)
    requires queries[i].name !in multi && queries[i].name != PRIVATE_PATHS_KEY
    ensures var name, file := queries[i].name, OnDisk(existing, queries, fetched, multi);
            && (name in file <==> name in existing && RunFile(existing, queries, fetched, multi).None?)
            && (name in file ==> file[name] == Null)
  {
    GoneIsDropped(existing, queries, fetched, multi, i);
    RegionsAreMulti(existing, queries, fetched, multi);
    if RunFile(existing, queries, fetched, multi).None? {
      UnwrittenFile(existing, queries, fetched, multi);
    }
  }

  /** Nothing fetched bears the name, and if it was asked for at all it was as a multi-region stack. */
  ghost predicate NotRefreshed(queries: seq<Query>, fetched: Answers, multi: set<string>, name: string)
    requires |fetched| == |queries|
  {
    forall j | 0 <= j < |queries| && queries[j].name == name :: name in multi && fetched[j].None?
  }

  lemma {:induction false} NotRefreshedIsKept(existing: map<string, Json>, queries: seq<Query>,
                                              fetched: Answers, multi: set<string>, name: string)
    requires |fetched| == |queries| && NotRefreshed(queries, fetched, multi, name)
    ensures var m := MergeAll(existing, queries, fetched, multi);
            && name !in m.regions && (name in m.data <==> name in existing)
            && (name in m.data ==> m.data[name] == existing[name])
    decreases |queries|
  {
    if queries != [] {
      var n := |queries| - 1;
      assert NotRefreshed(queries[..n], fetched[..n], multi, name);
      NotRefreshedIsKept(existing, queries[..n], fetched[..n], multi, name);
    }
  }

  /** An entry the run does not refresh is published whole: what an earlier run recorded as private in
      it is no longer recorded, so it is published as well. */
  lemma StaleEntryPublished(existing: map<string, Json>, queries: seq<Query>, fetched: Answers,
                            multi: set<string>, name: string)
    requires |fetched| == |queries| && NotRefreshed(queries, fetched, multi, name)
    requires name in existing && name != PRIVATE_PATHS_KEY
    ensures var published := Publish(OnDisk(existing, queries, fetched, multi));
            published.Success? && Get(published.value, [name]) == Some(existing[name])
  {
    var all := PublishedDocument(existing, queries, fetched, multi);
    var file := OnDisk(existing, queries, fetched, multi);
    var result := DeleteAll(Obj(file), all);
    FileAfterRun(existing, queries, fetched, multi);
    NotRefreshedIsKept(existing, queries, fetched, multi, name);
    assert file[name] == existing[name];
    forall r ensures SameNode(Get(result, [name] + r), Get(Obj(file), [name] + r)) {
      if p :| p in all && p <= [name] + r {
        assert p[0] == name;
        var j, k := PathOrigin(existing, queries, fetched, multi, p);
      }
      DeleteAllMeaning(Obj(file), all, [name] + r);
    }
    assert SameNode(Get(result, [name] + []), Get(Obj(file), [name] + []));
    GetUnder(result, name, []);
    GetUnder(Obj(file), name, []);
    forall r ensures SameNode(Get(result.fields[name], r), Get(existing[name], r)) {
      GetUnder(result, name, r);
      GetUnder(Obj(file), name, r);
      assert SameNode(Get(result, [name] + r), Get(Obj(file), [name] + r));
    }
    TreesEqual(result.fields[name], existing[name]);
    GetKey(result, name);
  }

  /** After a run that refreshes the entry it is an object, or null, or gone. */
  lemma RefreshedEntry(existing: map<string, Json>, queries: seq<Query>, fetched: Answers,
                       multi: set<string>, name: string)
    requires |fetched| == |queries| && DistinctQueries(queries, multi) && !NotRefreshed(queries, fetched, multi, name)
    requires name != PRIVATE_PATHS_KEY
    ensures var file := OnDisk(existing, queries, fetched, multi);
            name in file ==> file[name].Obj? || file[name] == Null
  {
    var j :| 0 <= j < |queries| && queries[j].name == name && !(name in multi && fetched[j].None?);
    FileAfterRun(existing, queries, fetched, multi);
    if fetched[j].Some? {
      FetchedIsHeld(existing, queries, fetched, multi, j);
      RegionsAreMulti(existing, queries, fetched, multi);
    } else {
      GoneStackLosesEntry(existing, queries, fetched, multi, j);
    }
  }

  /** Whatever an earlier run stored under a name is published whole, private outputs included, if and only
      if the run does not refresh it. */
  lemma PublishedWholeIff(existing: map<string, Json>, queries: seq<Query>, fetched: Answers,
                          multi: set<string>, name: string)
    requires |fetched| == |queries| && DistinctQueries(queries, multi) && name != PRIVATE_PATHS_KEY
    ensures NotRefreshed(queries, fetched, multi, name) <==>
              forall v :: EntryPublished(existing[name := v], queries, fetched, multi, name) == Some(v)
  {
    if NotRefreshed(queries, fetched, multi, name) {
      forall v ensures EntryPublished(existing[name := v], queries, fetched, multi, name) == Some(v) {
        StaleEntryPublished(existing[name := v], queries, fetched, multi, name);
      }
    } else {
      var stored := existing[name := Text("")];
      RefreshedEntry(stored, queries, fetched, multi, name);
      var all := PublishedDocument(stored, queries, fetched, multi);
      DeleteAllMeaning(Obj(OnDisk(stored, queries, fetched, multi)), all, [name]);
      GetKey(Obj(OnDisk(stored, queries, fetched, multi)), name);
      assert EntryPublished(stored, queries, fetched, multi, name) != Some(Text(""));
    }
  }

  /** Merged states of two runs that differ only in what was stored under `name`: the entries there are those
      stored, or no longer depend on it. */
  ghost predicate SameButStored(m: Merge, m': Merge, name: string, v: Json, w: Json) {
    && m.regions == m'.regions && m.paths == m'.paths && m.updated == m'.updated
    && m.data.Keys == m'.data.Keys
    && (forall n | n in m.data && n != name :: m.data[n] == m'.data[n])
    && (name in m.data ==> (m.data[name] == v && m'.data[name] == w) || m.data[name] == m'.data[name])
  }

  lemma MergeOneStored(m: Merge, m': Merge, q: Query, result: Option<seq<Output>>, multi: set<string>, name: string,
                       v: Json, w: Json)
    requires SameButStored(m, m', name, v, w) && v != Null && w != Null
    ensures SameButStored(MergeOne(m, q, result, multi), MergeOne(m', q, result, multi), name, v, w)
  {
    var a, b := MergeOne(m, q, result, multi), MergeOne(m', q, result, multi);
    assert a.data.Keys == b.data.Keys;
  }

  lemma {:induction false} MergeAllStored(existing: map<string, Json>, queries: seq<Query>, fetched: Answers,
                                          multi: set<string>, name: string, v: Json, w: Json)
    requires |fetched| == |queries| && v != Null && w != Null
    ensures SameButStored(MergeAll(existing[name := v], queries, fetched, multi),
                          MergeAll(existing[name := w], queries, fetched, multi), name, v, w)
    decreases |queries|
  {
    if queries == [] {
      assert existing[name := v].Keys == existing[name := w].Keys;
    } else {
      var n := |queries| - 1;
      MergeAllStored(existing, queries[..n], fetched[..n], multi, name, v, w);
      MergeOneStored(MergeAll(existing[name := v], queries[..n], fetched[..n], multi),
                     MergeAll(existing[name := w], queries[..n], fetched[..n], multi),
                     queries[n], fetched[n], multi, name, v, w);
    }
  }

  /** A refreshed entry no longer depends on what was stored, and the run writes the file. */
  lemma RefreshedEntryIsOwn(existing: map<string, Json>, queries: seq<Query>, fetched: Answers, multi: set<string>,
                            name: string, v: Json, w: Json)
    requires |fetched| == |queries| && DistinctQueries(queries, multi) && !NotRefreshed(queries, fetched, multi, name)
    requires name != PRIVATE_PATHS_KEY && v != Null && w != Null
    ensures var file := OnDisk(existing[name := v], queries, fetched, multi);
            var file' := OnDisk(existing[name := w], queries, fetched, multi);
            (name in file <==> name in file') && (name in file ==> file[name] == file'[name])
  {
    var j :| 0 <= j < |queries| && queries[j].name == name && !(name in multi && fetched[j].None?);
    if fetched[j].Some? {
      FetchedEntryIsOwn(existing, queries, fetched, multi, j, v, w);
    } else {
      GoneStackLosesEntry(existing[name := v], queries, fetched, multi, j);
      GoneStackLosesEntry(existing[name := w], queries, fetched, multi, j);
      NonNullIsDropped(existing, queries, fetched, multi, j, v);
      NonNullIsDropped(existing, queries, fetched, multi, j, w);
    }
  }

  lemma NonNullIsDropped(existing: map<string, Json>, queries: seq<Query>, fetched: Answers, multi: set<string>,
                         j: nat, v: Json)
    requires |fetched| == |queries| && j < |queries| && fetched[j].None? && DistinctQueries(queries, multi)
    requires queries[j].name !in multi && queries[j].name != PRIVATE_PATHS_KEY && v != Null
    ensures queries[j].name !in OnDisk(existing[queries[j].name := v], queries, fetched, multi)
  {
    GoneStackLosesEntry(existing[queries[j].name := v], queries, fetched, multi, j);
  }

  lemma FetchedEntryIsOwn(existing: map<string, Json>, queries: seq<Query>, fetched: Answers, multi: set<string>,
                          j: nat, v: Json, w: Json)
    requires |fetched| == |queries| && j < |queries| && fetched[j].Some? && DistinctQueries(queries, multi)
    requires queries[j].name != PRIVATE_PATHS_KEY && v != Null && w != Null
    ensures var name := queries[j].name;
            var file := OnDisk(existing[name := v], queries, fetched, multi);
            var file' := OnDisk(existing[name := w], queries, fetched, multi);
            name in file && name in file' && file[name] == file'[name]
  {
    var name := queries[j].name;
    var values := OutputValues(fetched[j].value);
    MergeAllStored(existing, queries, fetched, multi, name, v, w);
    FetchedInFile(existing[name := v], queries, fetched, multi, j);
    FetchedInFile(existing[name := w], queries, fetched, multi, j);
  }

  /** The entry of a fetched stack, in terms of the merged state. */
  lemma FetchedInFile(existing: map<string, Json>, queries: seq<Query>, fetched: Answers, multi: set<string>, j: nat)
    requires |fetched| == |queries| && j < |queries| && fetched[j].Some? && DistinctQueries(queries, multi)
    requires queries[j].name != PRIVATE_PATHS_KEY
    ensures var name := queries[j].name;
            var m := MergeAll(existing, queries, fetched, multi);
            var file := OnDisk(existing, queries, fetched, multi);
            && name in file
            && (if name in multi then name in m.regions && file[name] == RegionsEntry(m.regions[name])
                else file[name] == Obj(OutputValues(fetched[j].value)))
  {
    FetchedIsHeld(existing, queries, fetched, multi, j);
    FileAfterRun(existing, queries, fetched, multi);
    RegionsAreMulti(existing, queries, fetched, multi);
  }

  /** The dichotomy: an entry the run does not refresh is published whole, whatever it is; what is published
      under a name the run refreshes does not depend on what was stored there, and is what an empty entry
      gives. Only a stored null can show: the entry of a gone stack that was null already may stay. */
  lemma StoredEntryDichotomy(existing: map<string, Json>, queries: seq<Query>, fetched: Answers, multi: set<string>,
                             name: string)
    requires |fetched| == |queries| && DistinctQueries(queries, multi) && name != PRIVATE_PATHS_KEY
    ensures NotRefreshed(queries, fetched, multi, name) ==>
              forall v :: EntryPublished(existing[name := v], queries, fetched, multi, name) == Some(v)
    ensures !NotRefreshed(queries, fetched, multi, name) ==>
              forall v | v != Null :: NeverShows(existing, queries, fetched, multi, name, v)
  {
    PublishedWholeIff(existing, queries, fetched, multi, name);
    if !NotRefreshed(queries, fetched, multi, name) {
      forall v | v != Null ensures NeverShows(existing, queries, fetched, multi, name, v) {
        StoredNeverShows(existing, queries, fetched, multi, name, v, Obj(map[]));
      }
    }
  }

  /** With `v` stored under the name, the same is published under it as with an empty entry. */
  ghost predicate NeverShows(existing: map<string, Json>, queries: seq<Query>, fetched: Answers, multi: set<string>,
                             name: string, v: Json)
    requires |fetched| == |queries|
  {
    EntryPublished(existing[name := v], queries, fetched, multi, name) ==
    EntryPublished(existing[name := Obj(map[])], queries, fetched, multi, name)
  }

  lemma StoredNeverShows(existing: map<string, Json>, queries: seq<Query>, fetched: Answers, multi: set<string>,
                         name: string, v: Json, w: Json)
    requires |fetched| == |queries| && DistinctQueries(queries, multi) && !NotRefreshed(queries, fetched, multi, name)
    requires name != PRIVATE_PATHS_KEY && v != Null && w != Null
    ensures EntryPublished(existing[name := v], queries, fetched, multi, name) ==
            EntryPublished(existing[name := w], queries, fetched, multi, name)
  {
    var file := OnDisk(existing[name := v], queries, fetched, multi);
    var file' := OnDisk(existing[name := w], queries, fetched, multi);
    MergeAllStored(existing, queries, fetched, multi, name, v, w);
    RefreshedEntryIsOwn(existing, queries, fetched, multi, name, v, w);
    var paths := PublishedPaths(existing[name := v], queries, fetched, multi);
    var paths' := PublishedPaths(existing[name := w], queries, fetched, multi);
    DeleteAllUnderKey(file, file', paths, name);
  }

  /** The paths deleted before publishing are determined by those the run records. */
  lemma PublishedPaths(existing: map<string, Json>, queries: seq<Query>, fetched: Answers, multi: set<string>)
    returns (all: seq<Path>)
    requires |fetched| == |queries|
    ensures all == SortList(MergeAll(existing, queries, fetched, multi).paths, PathLeq) + [[PRIVATE_PATHS_KEY]]
    ensures [] !in all
    ensures Publish(OnDisk(existing, queries, fetched, multi)) ==
            Success(DeleteAll(Obj(OnDisk(existing, queries, fetched, multi)), all))
  {
    FileAfterRun(existing, queries, fetched, multi);
    var paths := SortList(MergeAll(existing, queries, fetched, multi).paths, PathLeq);
    PathsRoundTrip(paths);
    all := paths + [[PRIVATE_PATHS_KEY]];
    SortListMembers(MergeAll(existing, queries, fetched, multi).paths, PathLeq, []);
    if [] in MergeAll(existing, queries, fetched, multi).paths {
      var j, k := PathOrigin(existing, queries, fetched, multi, []);
    }
  }

  /** What is published under a name after the run. */
  ghost function EntryPublished(existing: map<string, Json>, queries: seq<Query>, fetched: Answers,
                                multi: set<string>, name: string): Option<Json>
    requires |fetched| == |queries|
  {
    var published := Publish(OnDisk(existing, queries, fetched, multi));
    if published.Success? then Get(published.value, [name]) else None
  }

  const SECRET_PATH: Path := ["s", "regions", "r", "k"]
  const SECRET_ENTRY := RegionsEntry(map["r" := Obj(map["k" := Text("secret")])])
  const SECRET_FILE := map["s" := SECRET_ENTRY, PRIVATE_PATHS_KEY := EncodePaths([SECRET_PATH])]

  lemma SecretFileEntries()
    ensures "s" != PRIVATE_PATHS_KEY && SECRET_FILE["s"] == SECRET_ENTRY
    ensures SECRET_FILE[PRIVATE_PATHS_KEY] == EncodePaths([SECRET_PATH])
  {
    assert |"s"| != |PRIVATE_PATHS_KEY|;
  }

  /** Published from the file as it is, the secret is kept back. */
  lemma SecretIsKeptBack()
    ensures Publish(SECRET_FILE).Success? && Get(Publish(SECRET_FILE).value, SECRET_PATH) == None
  {
    SecretFileEntries();
    PathsRoundTrip([SECRET_PATH]);
    var all := [SECRET_PATH] + [[PRIVATE_PATHS_KEY]];
    assert |SECRET_PATH| == 4 && [] !in [SECRET_PATH];
    assert all[0] == SECRET_PATH && SECRET_PATH <= SECRET_PATH;
    DeleteAllMeaning(Obj(SECRET_FILE), all, SECRET_PATH);
  }

  lemma SecretInside(document: Json)
    requires Get(document, ["s"]) == Some(SECRET_ENTRY)
    ensures Get(document, SECRET_PATH) == Some(Text("secret"))
  {
    var region := SECRET_ENTRY.fields["regions"];
    assert SECRET_PATH == ["s"] + (["regions"] + (["r"] + ["k"]));
    GetKey(document, "s");
    GetUnder(document, "s", ["regions"] + (["r"] + ["k"]));
    GetUnder(SECRET_ENTRY, "regions", ["r"] + ["k"]);
    GetUnder(region, "r", ["k"]);
    GetKey(region.fields["r"], "k");
  }

  /** A file whose recorded path keeps a secret back, and a run after which the same secret is published. */
  lemma SecretResurfaces()
    ensures Publish(SECRET_FILE).Success? && Get(Publish(SECRET_FILE).value, SECRET_PATH) == None
    ensures var rerun := Publish(OnDisk(SECRET_FILE, [Query("s", "r")], [None], {"s"}));
            rerun.Success? && Get(rerun.value, SECRET_PATH) == Some(Text("secret"))
  {
    SecretFileEntries();
    SecretIsKeptBack();
    StaleEntryPublished(SECRET_FILE, [Query("s", "r")], [None], {"s"}, "s");
    SecretInside(Publish(OnDisk(SECRET_FILE, [Query("s", "r")], [None], {"s"})).value);
  }
}
