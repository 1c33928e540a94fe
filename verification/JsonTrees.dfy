/** JSON documents, lookup by path, and deleting listed paths. */
module JsonTrees {
  import opened Results

  /** `Scalar` stands for numbers and booleans. */
  datatype Json =
    | Null
    | Scalar(literal: string)
    | Text(text: string)
    | List(items: seq<Json>)
    | Obj(fields: map<string, Json>)

  type Path = seq<string>

  /** What a path of keys leads to; lists are not entered. */
  function Get(t: Json, p: Path): Option<Json>
    decreases |p|
  {
    if p == [] then Some(t)
    else if t.Obj? && p[0] in t.fields then Get(t.fields[p[0]], p[1..])
    else None
  }

  lemma GetKey(t: Json, k: string)
    ensures Get(t, [k]) == if t.Obj? && k in t.fields then Some(t.fields[k]) else None
  {
    assert [k][1..] == [];
  }

  lemma GetUnder(t: Json, k: string, p: Path)
    ensures Get(t, [k] + p) == if t.Obj? && k in t.fields then Get(t.fields[k], p) else None
  {
    assert ([k] + p)[1..] == p;
  }

  /** Equal up to what is inside objects. */
  predicate SameNode(a: Option<Json>, b: Option<Json>) {
    a == b || (a.Some? && b.Some? && a.value.Obj? && b.value.Obj?)
  }

  /** Trees are determined by what their paths lead to. */
  lemma {:induction false} TreesEqual(a: Json, b: Json)
    requires forall p :: SameNode(Get(a, p), Get(b, p))
    ensures a == b
    decreases a
  {
    assert SameNode(Get(a, []), Get(b, []));
    if a.Obj? && b.Obj? {
      forall k ensures k in a.fields <==> k in b.fields {
        assert SameNode(Get(a, [k]), Get(b, [k]));
        GetKey(a, k);
        GetKey(b, k);
      }
      forall k | k in a.fields ensures a.fields[k] == b.fields[k] {
        forall p ensures SameNode(Get(a.fields[k], p), Get(b.fields[k], p)) {
          assert SameNode(Get(a, [k] + p), Get(b, [k] + p));
          assert ([k] + p)[1..] == p;
        }
        TreesEqual(a.fields[k], b.fields[k]);
      }
      assert a.fields == b.fields;
    }
  }

  /** Some listed path is a prefix of `q`. */
  ghost predicate Covered(ps: seq<Path>, q: Path) {
    exists p :: p in ps && p <= q
  }

  lemma CoveredByOneMore(ps: seq<Path>, p: Path, q: Path)
    ensures Covered(ps + [p], q) <==> Covered(ps, q) || p <= q
  {
    if Covered(ps, q) {
      var r :| r in ps && r <= q;
      assert r in ps + [p];
    }
    if p <= q {
      assert p in ps + [p];
    }
  }

  // ---- filter_sensitive_data ----

  function Delete(t: Json, p: Path): (r: Json)
    requires p != []
    decreases |p|
  {
    if !t.Obj? || p[0] !in t.fields then t
    else if |p| == 1 then Obj(t.fields - {p[0]})
    else Obj(t.fields[p[0] := Delete(t.fields[p[0]], p[1..])])
  }

  function DeleteAll(t: Json, ps: seq<Path>): (r: Json)
    requires [] !in ps
  {
    if ps == [] then t
    else Delete(DeleteAll(t, ps[..|ps| - 1]), ps[|ps| - 1])
  }

  lemma {:induction false} DeleteMeaning(t: Json, p: Path, q: Path)
    requires p != []
    ensures if p <= q then Get(Delete(t, p), q) == None else SameNode(Get(Delete(t, p), q), Get(t, q))
    decreases |p|
  {
    if q != [] && t.Obj? && p[0] in t.fields && q[0] == p[0] && |p| > 1 {
      DeleteMeaning(t.fields[p[0]], p[1..], q[1..]);
      assert p == [p[0]] + p[1..] && q == [q[0]] + q[1..];
      assert p <= q <==> p[1..] <= q[1..];
    }
  }

  /** A path survives exactly when it was there and no listed path is a prefix of it; what is not an
      object is unchanged. */
  lemma {:induction false} DeleteAllMeaning(t: Json, ps: seq<Path>, q: Path)
    requires [] !in ps
    ensures if Covered(ps, q) then Get(DeleteAll(t, ps), q) == None else SameNode(Get(DeleteAll(t, ps), q), Get(t, q))
    decreases |ps|
  {
    if ps != [] {
      var front, last := ps[..|ps| - 1], ps[|ps| - 1];
      assert ps == front + [last];
      DeleteAllMeaning(t, front, q);
      DeleteMeaning(DeleteAll(t, front), last, q);
      CoveredByOneMore(front, last, q);
    }
  }

  /** Placed under `prefix`, the trees agree wherever no listed path leads. */
  ghost predicate AgreeUnder(prefix: Path, a: Json, b: Json, ps: seq<Path>) {
    forall q | !Covered(ps, prefix + q) :: SameNode(Get(a, q), Get(b, q))
  }

  ghost predicate AgreeOff(a: Json, b: Json, ps: seq<Path>) {
    AgreeUnder([], a, b, ps)
  }

  lemma CoveredMonotone(ps: seq<Path>, qs: seq<Path>, q: Path)
    requires Covered(ps, q) && forall p | p in ps :: p in qs
    ensures Covered(qs, q)
  {
    var p :| p in ps && p <= q;
  }

  lemma AgreeMore(prefix: Path, a: Json, b: Json, ps: seq<Path>, qs: seq<Path>)
    requires AgreeUnder(prefix, a, b, ps) && forall p | p in ps :: p in qs
    ensures AgreeUnder(prefix, a, b, qs)
  {
    forall q | !Covered(qs, prefix + q) ensures SameNode(Get(a, q), Get(b, q)) {
      if Covered(ps, prefix + q) {
        CoveredMonotone(ps, qs, prefix + q);
      }
    }
  }

  /** Setting a key to values that agree there keeps the objects in agreement. */
  lemma PutAgrees(prefix: Path, a: map<string, Json>, b: map<string, Json>, k: string, x: Json, y: Json, ps: seq<Path>)
    requires AgreeUnder(prefix, Obj(a), Obj(b), ps) && AgreeUnder(prefix + [k], x, y, ps)
    ensures AgreeUnder(prefix, Obj(a[k := x]), Obj(b[k := y]), ps)
  {
    forall q | !Covered(ps, prefix + q) ensures SameNode(Get(Obj(a[k := x]), q), Get(Obj(b[k := y]), q)) {
      if q != [] && q[0] == k {
        assert prefix + q == prefix + [k] + q[1..];
        assert SameNode(Get(x, q[1..]), Get(y, q[1..]));
      } else {
        assert SameNode(Get(Obj(a), q), Get(Obj(b), q));
      }
    }
  }

  /** Agreement carries over to what is under a common key. */
  lemma KeyAgrees(prefix: Path, a: map<string, Json>, b: map<string, Json>, k: string, ps: seq<Path>)
    requires AgreeUnder(prefix, Obj(a), Obj(b), ps) && k in a && k in b
    ensures AgreeUnder(prefix + [k], a[k], b[k], ps)
  {
    forall q | !Covered(ps, prefix + [k] + q) ensures SameNode(Get(a[k], q), Get(b[k], q)) {
      assert prefix + [k] + q == prefix + ([k] + q);
      assert SameNode(Get(Obj(a), [k] + q), Get(Obj(b), [k] + q));
      GetUnder(Obj(a), k, q);
      GetUnder(Obj(b), k, q);
    }
  }

  /** Deleting makes two trees equal exactly when they differ only under the listed paths. */
  lemma DeleteAllEqualIff(a: Json, b: Json, ps: seq<Path>)
    requires [] !in ps
    ensures DeleteAll(a, ps) == DeleteAll(b, ps) <==> AgreeOff(a, b, ps)
  {
    forall q
      ensures if Covered(ps, q) then Get(DeleteAll(a, ps), q) == None else SameNode(Get(DeleteAll(a, ps), q), Get(a, q))
    {
      DeleteAllMeaning(a, ps, q);
    }
    forall q
      ensures if Covered(ps, q) then Get(DeleteAll(b, ps), q) == None else SameNode(Get(DeleteAll(b, ps), q), Get(b, q))
    {
      DeleteAllMeaning(b, ps, q);
    }
    assert forall q: Path :: [] + q == q;
    if AgreeOff(a, b, ps) {
      forall q ensures SameNode(Get(DeleteAll(a, ps), q), Get(DeleteAll(b, ps), q)) {
      }
      TreesEqual(DeleteAll(a, ps), DeleteAll(b, ps));
    }
  }

  /** The order of the list and its repeats do not matter. */
  lemma DeleteAllOrderFree(t: Json, ps: seq<Path>, qs: seq<Path>)
    requires [] !in ps && [] !in qs && forall p :: p in ps <==> p in qs
    ensures DeleteAll(t, ps) == DeleteAll(t, qs)
  {
    forall q ensures SameNode(Get(DeleteAll(t, ps), q), Get(DeleteAll(t, qs), q)) {
      DeleteAllMeaning(t, ps, q);
      DeleteAllMeaning(t, qs, q);
      assert Covered(ps, q) <==> Covered(qs, q);
    }
    TreesEqual(DeleteAll(t, ps), DeleteAll(t, qs));
  }

  /** Deleting again changes nothing. */
  lemma DeleteAllIdempotent(t: Json, ps: seq<Path>)
    requires [] !in ps
    ensures DeleteAll(DeleteAll(t, ps), ps) == DeleteAll(t, ps)
  {
    forall q | !Covered(ps, [] + q) ensures SameNode(Get(DeleteAll(t, ps), q), Get(t, q)) {
      assert [] + q == q;
      DeleteAllMeaning(t, ps, q);
    }
    DeleteAllEqualIff(DeleteAll(t, ps), t, ps);
  }

  /** What is left under a key depends only on what was under it. */
  lemma DeleteAllUnderKey(a: map<string, Json>, b: map<string, Json>, ps: seq<Path>, k: string)
    requires [] !in ps && (k in a <==> k in b) && (k in a ==> a[k] == b[k])
    ensures Get(DeleteAll(Obj(a), ps), [k]) == Get(DeleteAll(Obj(b), ps), [k])
  {
    var x, y := DeleteAll(Obj(a), ps), DeleteAll(Obj(b), ps);
    forall r ensures SameNode(Get(x, [k] + r), Get(y, [k] + r)) {
      DeleteAllMeaning(Obj(a), ps, [k] + r);
      DeleteAllMeaning(Obj(b), ps, [k] + r);
      GetUnder(Obj(a), k, r);
      GetUnder(Obj(b), k, r);
    }
    GetKey(x, k);
    GetKey(y, k);
    assert SameNode(Get(x, [k] + []), Get(y, [k] + []));
    assert [k] + [] == [k];
    if Get(x, [k]).Some? && Get(y, [k]).Some? {
      forall r ensures SameNode(Get(x.fields[k], r), Get(y.fields[k], r)) {
        GetUnder(x, k, r);
        GetUnder(y, k, r);
        assert SameNode(Get(x, [k] + r), Get(y, [k] + r));
      }
      TreesEqual(x.fields[k], y.fields[k]);
    }
  }
}
