/** Collecting stack outputs into one document, recording which are private, and publishing the
    document without them. */
module Redaction {
  import opened Results
  import opened Ordering
  import opened JsonTrees

  /** One CloudFormation output; `marked` when its description carries the private marker. */
  datatype Output = Output(key: string, value: string, marked: bool)

  /** A stack to look up: its resolved name and its explicit regions, none meaning the default one. */
  datatype Target = Target(name: string, regions: seq<string>)

  datatype Query = Query(name: string, region: string)

  /** The answer to each query: its outputs, or none when the stack is missing. */
  type Answers = seq<Option<seq<Output>>>

  const PRIVATE_PATHS_KEY := "_private_output_paths"

  // ---- get_stack_outputs ----

  function OutputValues(outputs: seq<Output>): (m: map<string, Json>) {
    if outputs == [] then map[]
    else
      var last := outputs[|outputs| - 1];
      OutputValues(outputs[..|outputs| - 1])[last.key := Text(last.value)]
  }

  /** No later output has the key of this one. */
  ghost predicate LastOfKey(outputs: seq<Output>, l: nat) {
    l < |outputs| && forall j | l < j < |outputs| :: outputs[j].key != outputs[l].key
  }

  /** A key has the value of the last output under it. */
  lemma {:induction false} OutputValuesLast(outputs: seq<Output>, l: nat)
    requires LastOfKey(outputs, l)
    ensures outputs[l].key in OutputValues(outputs)
    ensures OutputValues(outputs)[outputs[l].key] == Text(outputs[l].value)
    decreases |outputs|
  {
    if l < |outputs| - 1 {
      OutputValuesLast(outputs[..|outputs| - 1], l);
    }
  }

  lemma DistinctOutputValues(outputs: seq<Output>, o: Output)
    requires (forall i, j | 0 <= i < j < |outputs| :: outputs[i].key != outputs[j].key) && o in outputs
    ensures o.key in OutputValues(outputs) && OutputValues(outputs)[o.key] == Text(o.value)
  {
    var l :| 0 <= l < |outputs| && outputs[l] == o;
    OutputValuesLast(outputs, l);
  }

  function MarkedKeys(outputs: seq<Output>): (r: seq<string>) {
    if outputs == [] then []
    else
      var last := outputs[|outputs| - 1];
      MarkedKeys(outputs[..|outputs| - 1]) + (if last.marked then [last.key] else [])
  }

  /** A key is marked when some output under it carries the marker. */
  lemma {:induction false} MarkedMeaning(outputs: seq<Output>, k: string)
    ensures k in MarkedKeys(outputs) <==> exists o :: o in outputs && o.key == k && o.marked
    ensures k in OutputValues(outputs) <==> exists o :: o in outputs && o.key == k
    decreases |outputs|
  {
    if outputs != [] {
      var front, last := outputs[..|outputs| - 1], outputs[|outputs| - 1];
      MarkedMeaning(front, k);
      assert outputs == front + [last];
      assert last in outputs;
      assert forall o | o in front :: o in outputs;
    }
  }

  /** The output map and the sorted keys marked private. */
  function StackOutputs(outputs: seq<Output>): (r: (map<string, Json>, seq<string>)) {
    (OutputValues(outputs), SortList(MarkedKeys(outputs), LexLeq))
  }

  // ---- Planning the queries ----

  function RegionQueries(name: string, regions: seq<string>): (r: seq<Query>)
    ensures forall q :: q in r <==> q.name == name && q.region in regions
  {
    if regions == [] then []
    else
      var front, last := regions[..|regions| - 1], regions[|regions| - 1];
      assert regions == front + [last];
      RegionQueries(name, front) + [Query(name, last)]
  }

  function QueriesOf(t: Target, region: string): seq<Query> {
    RegionQueries(t.name, if t.regions == [] then [region] else t.regions)
  }

  function Queries(targets: seq<Target>, region: string): seq<Query> {
    if targets == [] then []
    else Queries(targets[..|targets| - 1], region) + QueriesOf(targets[|targets| - 1], region)
  }

  function MultiRegionNames(targets: seq<Target>): set<string> {
    if targets == [] then {}
    else
      var last := targets[|targets| - 1];
      MultiRegionNames(targets[..|targets| - 1]) + (if last.regions != [] then {last.name} else {})
  }

  lemma {:induction false} RegionQueryAt(name: string, regions: seq<string>, i: nat)
    requires i < |regions|
    ensures |RegionQueries(name, regions)| == |regions| && RegionQueries(name, regions)[i] == Query(name, regions[i])
    decreases |regions|
  {
    var front := regions[..|regions| - 1];
    if |front| > 0 {
      RegionQueryAt(name, front, if i < |front| then i else 0);
    }
  }

  /** A target with explicit regions is asked for in each of them, in their order; any other one only in the
      default region. */
  lemma TargetQueries(t: Target, region: string)
    ensures t.regions == [] ==> QueriesOf(t, region) == [Query(t.name, region)]
    ensures t.regions != [] ==> |QueriesOf(t, region)| == |t.regions|
    ensures t.regions != [] ==>
              forall i | 0 <= i < |t.regions| :: QueriesOf(t, region)[i] == Query(t.name, t.regions[i])
  {
    if t.regions == [] {
      RegionQueryAt(t.name, [region], 0);
    } else {
      forall i | 0 <= i < |t.regions|
        ensures |QueriesOf(t, region)| == |t.regions| && QueriesOf(t, region)[i] == Query(t.name, t.regions[i])
      {
        RegionQueryAt(t.name, t.regions, i);
      }
      RegionQueryAt(t.name, t.regions, 0);
    }
  }

  /** Targets are asked for one after the other. */
  lemma {:induction false} QueriesInOrder(a: seq<Target>, b: seq<Target>, region: string)
    ensures Queries(a + b, region) == Queries(a, region) + Queries(b, region)
    decreases |b|
  {
    if b == [] {
      assert a + b == a;
    } else {
      var front, last := b[..|b| - 1], b[|b| - 1];
      SplitLast(a, b);
      QueriesInOrder(a, front, region);
      AskedLast(a + front, last, region);
      AskedLast(front, last, region);
      Reassociated(Queries(a, region), Queries(front, region), QueriesOf(last, region));
    }
  }

  lemma AskedLast(targets: seq<Target>, t: Target, region: string)
    ensures Queries(targets + [t], region) == Queries(targets, region) + QueriesOf(t, region)
  {
    assert (targets + [t])[..|targets|] == targets;
  }

  lemma QueriesOfOne(t: Target, region: string)
    ensures Queries([t], region) == QueriesOf(t, region)
  {
    assert [t][..0] == [];
  }

  /** A name is multi-region when some target of that name lists regions. */
  lemma {:induction false} MultiRegionMeaning(targets: seq<Target>, name: string)
    ensures name in MultiRegionNames(targets) <==> exists t :: t in targets && t.name == name && t.regions != []
    decreases |targets|
  {
    if targets != [] {
      var front, last := targets[..|targets| - 1], targets[|targets| - 1];
      MultiRegionMeaning(front, name);
      assert targets == front + [last];
      assert last in targets && forall t | t in front :: t in targets;
    }
  }

  method PlanQueries(targets: seq<Target>, region: string) returns (queries: seq<Query>, multi: set<string>)
    ensures queries == Queries(targets, region) && multi == MultiRegionNames(targets)
  {
    queries, multi := [], {};
    for i := 0 to |targets|
      invariant queries == Queries(targets[..i], region) && multi == MultiRegionNames(targets[..i])
    {
      var t := targets[i];
      assert targets[..i + 1][..i] == targets[..i];
      if t.regions != [] {
        multi := multi + {t.name};
      }
      queries := queries + QueriesOf(t, region);
    }
    assert targets[..|targets|] == targets;
  }

  // ---- The merge loop of main ----

  /** The loop's variables: output_data, regions_by_name, private_paths, updated_count. */
  datatype Merge = Merge(
    data: map<string, Json>,
    regions: map<string, map<string, Json>>,
    paths: seq<Path>,
    updated: nat)

  function PrefixAll(prefix: Path, keys: seq<string>): (r: seq<Path>) {
    if keys == [] then []
    else PrefixAll(prefix, keys[..|keys| - 1]) + [prefix + [keys[|keys| - 1]]]
  }

  lemma {:induction false} PrefixAllHas(prefix: Path, keys: seq<string>, k: string)
    requires k in keys
    ensures prefix + [k] in PrefixAll(prefix, keys)
    decreases |keys|
  {
    var front, last := keys[..|keys| - 1], keys[|keys| - 1];
    assert keys == front + [last];
    if k != last {
      PrefixAllHas(prefix, front, k);
    }
  }

  lemma {:induction false} PrefixAllOnly(prefix: Path, keys: seq<string>, p: Path) returns (k: string)
    requires p in PrefixAll(prefix, keys)
    ensures k in keys && p == prefix + [k]
    decreases |keys|
  {
    var front, last := keys[..|keys| - 1], keys[|keys| - 1];
    assert keys == front + [last];
    if p == prefix + [last] {
      k := last;
    } else {
      k := PrefixAllOnly(prefix, front, p);
    }
  }

  function MergeOne(m: Merge, q: Query, result: Option<seq<Output>>, multi: set<string>): Merge {
    if q.name in multi then
      match result
      case None => m
      case Some(outputs) =>
        var (values, marked) := StackOutputs(outputs);
        var known := if q.name in m.regions then m.regions[q.name] else map[];
        m.(regions := m.regions[q.name := known[q.region := Obj(values)]],
           paths := m.paths + PrefixAll([q.name, "regions", q.region], marked))
    else
      match result
      case Some(outputs) =>
        var (values, marked) := StackOutputs(outputs);
        m.(data := m.data[q.name := Obj(values)],
           paths := m.paths + PrefixAll([q.name], marked),
           updated := m.updated + 1)
      case None =>
        if q.name in m.data
        then m.(data := m.data - {q.name}, updated := if m.data[q.name] != Null then m.updated + 1 else m.updated)
        else m
  }

  function MergeAll(existing: map<string, Json>, queries: seq<Query>, fetched: Answers, multi: set<string>): Merge
    requires |fetched| == |queries|
  {
    if queries == [] then Merge(existing, map[], [], 0)
    else
      var n := |queries| - 1;
      MergeOne(MergeAll(existing, queries[..n], fetched[..n], multi), queries[n], fetched[n], multi)
  }

  /** The entry written for a multi-region stack. */
  function RegionsEntry(regions: map<string, Json>): Json {
    Obj(map["regions" := Obj(regions)])
  }

  ghost function RegionEntries(regions: map<string, map<string, Json>>): map<string, Json> {
    map name | name in regions :: RegionsEntry(regions[name])
  }

  predicate PathLeq(a: Path, b: Path) {
    if a == [] then true
    else if b == [] then false
    else if a[0] != b[0] then LexLeq(a[0], b[0])
    else PathLeq(a[1..], b[1..])
  }

  /** The first part at which the paths differ decides; a proper prefix comes first. */
  ghost predicate FirstPartBelow(a: Path, b: Path) {
    exists i :: 0 <= i < |a| && i < |b| && a[..i] == b[..i] && a[i] != b[i] && LexLeq(a[i], b[i])
  }

  lemma {:induction false} PathLeqMeaning(a: Path, b: Path)
    ensures PathLeq(a, b) <==> a <= b || FirstPartBelow(a, b)
    decreases |a|
  {
    if a != [] && b != [] {
      if a[0] == b[0] {
        PathLeqMeaning(a[1..], b[1..]);
        PartInTail(a, b);
        assert a == [a[0]] + a[1..] && b == [b[0]] + b[1..];
        assert a <= b <==> a[1..] <= b[1..];
      } else {
        assert a[..0] == b[..0];
        forall i | 0 < i < |a| && i < |b| ensures a[..i] != b[..i] {
          assert a[..i][0] != b[..i][0];
        }
      }
    }
  }

  lemma PartInTail(a: Path, b: Path)
    requires a != [] && b != [] && a[0] == b[0]
    ensures FirstPartBelow(a, b) <==> FirstPartBelow(a[1..], b[1..])
  {
    if i: nat :| i < |a| && i < |b| && a[..i] == b[..i] && a[i] != b[i] && LexLeq(a[i], b[i]) {
      assert i > 0;
      assert a[1..][..i - 1] == a[..i][1..] && b[1..][..i - 1] == b[..i][1..];
      assert a[1..][i - 1] != b[1..][i - 1];
    }
    var x, y := a[1..], b[1..];
    if i: nat :| i < |x| && i < |y| && x[..i] == y[..i] && x[i] != y[i] && LexLeq(x[i], y[i]) {
      assert a[..i + 1] == [a[0]] + x[..i] && b[..i + 1] == [b[0]] + y[..i];
      assert a[i + 1] != b[i + 1];
    }
  }

  lemma {:induction false} PathTotal(a: Path, b: Path)
    ensures PathLeq(a, b) || PathLeq(b, a)
    decreases |a|
  {
    if a != [] && b != [] {
      LexTotal(a[0], b[0]);
      PathTotal(a[1..], b[1..]);
    }
  }

  lemma {:induction false} PathTransitive(a: Path, b: Path, c: Path)
    requires PathLeq(a, b) && PathLeq(b, c)
    ensures PathLeq(a, c)
    decreases |a|
  {
    if a != [] && b != [] && c != [] {
      LexTransitiveParts(a[0], b[0], c[0]);
      if a[0] == b[0] == c[0] {
        PathTransitive(a[1..], b[1..], c[1..]);
      }
    }
  }

  lemma LexTransitiveParts(x: string, y: string, z: string)
    ensures LexLeq(x, y) && LexLeq(y, z) ==> LexLeq(x, z)
    ensures LexLeq(x, y) && LexLeq(y, x) ==> x == y
  {
    LexTotal(x, y);
    if LexLeq(x, y) && LexLeq(y, z) {
      LexTransitive(x, y, z);
    }
  }

  /** The recorded paths are in order. */
  lemma SortedPathsInOrder(paths: seq<Path>)
    ensures InOrder(SortList(paths, PathLeq), PathLeq)
  {
    forall x, y ensures PathLeq(x, y) || PathLeq(y, x) {
      PathTotal(x, y);
    }
    forall x, y, z | PathLeq(x, y) && PathLeq(y, z) ensures PathLeq(x, z) {
      PathTransitive(x, y, z);
    }
    SortListInOrder(paths, PathLeq);
  }

  function EncodePaths(paths: seq<Path>): Json {
    List(seq(|paths|, i requires 0 <= i < |paths| => EncodePath(paths[i])))
  }

  function EncodePath(p: Path): Json {
    List(seq(|p|, i requires 0 <= i < |p| => Text(p[i])))
  }

  /** The file after a run; `None` when nothing is written. */
  ghost function RunFile(existing: map<string, Json>, queries: seq<Query>, fetched: Answers, multi: set<string>):
    (r: Option<map<string, Json>>)
    requires |fetched| == |queries|
  {
    FileOf(MergeAll(existing, queries, fetched, multi))
  }

  ghost function FileOf(m: Merge): Option<map<string, Json>> {
    var data := m.data + RegionEntries(m.regions);
    var paths := EncodePaths(SortList(m.paths, PathLeq));
    var updated := m.updated + |m.regions| +
      (if PRIVATE_PATHS_KEY in data && data[PRIVATE_PATHS_KEY] == paths then 0 else 1);
    if updated > 0 then Some(data[PRIVATE_PATHS_KEY := paths]) else None
  }

  /** The document once the entries of all names but those in `left` are written. */
  ghost predicate EntriesWritten(m: Merge, left: set<string>, data: map<string, Json>) {
    && data.Keys == m.data.Keys + (m.regions.Keys - left)
    && (forall n | n in data ::
          data[n] == if n in m.regions && n !in left then RegionsEntry(m.regions[n])
                     else if n in m.data then m.data[n] else Null)
  }

  lemma EntryWritten(m: Merge, left: set<string>, data: map<string, Json>, name: string)
    requires name in left && name in m.regions && EntriesWritten(m, left, data)
    ensures EntriesWritten(m, left - {name}, data[name := RegionsEntry(m.regions[name])])
  {
  }

  lemma AllEntriesWritten(m: Merge, data: map<string, Json>)
    requires EntriesWritten(m, {}, data)
    ensures data == m.data + RegionEntries(m.regions)
  {
    assert RegionEntries(m.regions).Keys == m.regions.Keys;
    assert data.Keys == (m.data + RegionEntries(m.regions)).Keys;
  }

  method AddRegionEntries(m: Merge) returns (data: map<string, Json>, updated: nat)
    ensures data == m.data + RegionEntries(m.regions)
    ensures updated == m.updated + |m.regions|
  {
    data, updated := m.data, m.updated;
    var left := m.regions.Keys;
    while left != {}
      invariant left <= m.regions.Keys && EntriesWritten(m, left, data)
      invariant updated == m.updated + |m.regions| - |left|
    {
      var name :| name in left;
      EntryWritten(m, left, data, name);
      data := data[name := RegionsEntry(m.regions[name])];
      updated := updated + 1;
      left := left - {name};
    }
    AllEntriesWritten(m, data);
  }

  method GenerateOutputs(existing: map<string, Json>, targets: seq<Target>, region: string, fetched: Answers)
    returns (written: Option<map<string, Json>>)
    requires |fetched| == |Queries(targets, region)|
    ensures written == RunFile(existing, Queries(targets, region), fetched, MultiRegionNames(targets))
  {
    var queries, multi := PlanQueries(targets, region);
    var m := Merge(existing, map[], [], 0);
    for i := 0 to |queries|
      invariant m == MergeAll(existing, queries[..i], fetched[..i], multi)
    {
      TakeTake(queries, i);
      TakeTake(fetched, i);
      m := MergeOne(m, queries[i], fetched[i], multi);
    }
    assert queries[..|queries|] == queries && fetched[..|queries|] == fetched;
    var data, updated := AddRegionEntries(m);
    var privatePaths := EncodePaths(SortList(m.paths, PathLeq));
    if !(PRIVATE_PATHS_KEY in data && data[PRIVATE_PATHS_KEY] == privatePaths) {
      updated := updated + 1;
    }
    data := data[PRIVATE_PATHS_KEY := privatePaths];
    if updated > 0 {
      return Some(data);
    }
    return None;
  }
}
