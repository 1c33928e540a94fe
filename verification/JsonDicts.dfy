/** Nested dictionaries on the heap, their deep copy, and deleting listed paths from the copy in place. */
module JsonDicts {
  import opened Results
  import opened JsonTrees

  datatype Entry = Value(json: Json) | Child(dict: Dict)

  class Dict {
    var entries: map<string, Entry>
    ghost var repr: set<Dict>

    constructor ()
      ensures entries == map[] && repr == {this}
    {
      entries := map[];
      repr := {this};
    }

    /** A tree: children own disjoint parts, none of which contains the parent. */
    ghost predicate Valid()
      reads this, repr
      decreases repr
    {
      && this in repr
      && (forall k | k in entries && entries[k].Child? ::
            entries[k].dict in repr && entries[k].dict.repr < repr &&
            this !in entries[k].dict.repr && entries[k].dict.Valid())
      && (forall k | k in entries && entries[k].Value? :: !entries[k].json.Obj?)
      && (forall k, l | k in entries && l in entries && k != l && entries[k].Child? && entries[l].Child? ::
            entries[k].dict.repr !! entries[l].dict.repr)
    }

    /** The document it holds. */
    ghost function Tree(): (t: Json)
      requires Valid()
      reads this, repr
      ensures t.Obj? && t.fields.Keys == entries.Keys
      decreases repr
    {
      Obj(map k | k in entries :: EntryTree(k))
    }

    ghost function EntryTree(k: string): Json
      requires Valid() && k in entries
      reads this, repr
      decreases repr, 0
    {
      match entries[k]
      case Value(j) => j
      case Child(d) => d.Tree()
    }

    /** Everything owned by the children under other keys. */
    ghost function OtherParts(k0: string): set<Dict>
      reads this, set k | k in entries && entries[k].Child? :: entries[k].dict
    {
      set k, o | k in entries && k != k0 && entries[k].Child? && o in entries[k].dict.repr :: o
    }

    // ---- What changing one dictionary does to it and to those above it ----

    twostate lemma DeletedHere(k0: string)
      requires old(Valid()) && k0 in old(entries) && entries == old(entries) - {k0} && repr == old(repr)
      requires unchanged(old(OtherParts(k0)))
      ensures Valid() && Tree() == Delete(old(Tree()), [k0])
    {
      forall k | k in entries && entries[k].Child?
        ensures entries[k].dict.Valid() && entries[k].dict.Tree() == old(entries[k].dict.Tree())
      {
        UntouchedTree(old(entries[k].dict));
      }
      assert Valid();
      forall k | k in entries ensures EntryTree(k) == old(EntryTree(k)) {
      }
      assert Tree().fields == old(Tree()).fields - {k0};
    }

    twostate lemma DeletedBelow(path: Path)
      requires |path| > 1 && path[0] in entries && entries[path[0]].Child?
      requires old(Valid()) && entries == old(entries) && repr == old(repr)
      requires unchanged(old(OtherParts(path[0])))
      requires entries[path[0]].dict.Valid() && entries[path[0]].dict.repr == old(entries[path[0]].dict.repr)
      requires entries[path[0]].dict.Tree() == Delete(old(entries[path[0]].dict.Tree()), path[1..])
      ensures Valid() && Tree() == Delete(old(Tree()), path)
    {
      var k0 := path[0];
      forall k | k in entries && k != k0 && entries[k].Child?
        ensures entries[k].dict.Valid() && entries[k].dict.Tree() == old(entries[k].dict.Tree())
      {
        UntouchedTree(old(entries[k].dict));
      }
      assert Valid();
      forall k | k in entries && k != k0 ensures EntryTree(k) == old(EntryTree(k)) {
      }
      assert EntryTree(k0) == entries[k0].dict.Tree() && old(EntryTree(k0)) == old(entries[k0].dict.Tree());
      assert Tree().fields == old(Tree()).fields[k0 := Delete(old(entries[k0].dict.Tree()), path[1..])];
    }
  }

  twostate lemma UntouchedTree(c: Dict)
    requires old(c.Valid()) && unchanged(c, old(c.repr))
    ensures c.Valid() && c.Tree() == old(c.Tree())
  {
  }

  /** The dictionaries met when the keys of `p` are followed from `trail[0]`. */
  ghost predicate OnTrail(trail: seq<Dict>, p: Path)
    reads trail, set d, o | d in trail && o in d.repr :: o
  {
    && |trail| == |p| + 1
    && (forall j | 0 <= j < |trail| :: trail[j].Valid())
    && (forall j | 0 <= j < |p| :: p[j] in trail[j].entries && trail[j].entries[p[j]] == Child(trail[j + 1]))
  }

  lemma {:induction false} TrailInside(trail: seq<Dict>, p: Path, j: nat)
    requires OnTrail(trail, p) && j < |trail|
    ensures trail[|p|] in trail[j].repr && trail[|p|].repr <= trail[j].repr
    decreases |trail| - j
  {
    if j < |p| {
      TrailInside(trail, p, j + 1);
    }
  }

  lemma SameFields(t: Json, k: string)
    requires t.Obj? && k in t.fields
    ensures Obj(t.fields[k := t.fields[k]]) == t
  {
    assert t.fields[k := t.fields[k]] == t.fields;
  }

  /** Where the keys lead to no dictionary, or to one without the next key, deleting is a no-op. */
  lemma {:induction false} NothingToDelete(trail: seq<Dict>, p: Path, i: nat)
    requires i < |p| && OnTrail(trail, p[..i])
    requires p[i] !in trail[i].entries || (i < |p| - 1 && trail[i].entries[p[i]].Value?)
    ensures Delete(trail[0].Tree(), p) == trail[0].Tree()
    decreases i
  {
    var d := trail[0];
    if p[0] in d.entries {
      assert d.Tree().fields[p[0]] == d.EntryTree(p[0]);
      SameFields(d.Tree(), p[0]);
      if i > 0 {
        assert p[..i][0] == p[0] && d.entries[p[0]] == Child(trail[1]);
        forall j | 0 <= j < i - 1 ensures trail[1..][j].entries[p[1..][..i - 1][j]] == Child(trail[1..][j + 1]) {
          assert p[..i][j + 1] == p[1..][..i - 1][j];
        }
        NothingToDelete(trail[1..], p[1..], i - 1);
      }
    }
  }

  /** Removing the key at the end of the trail deletes exactly one path of the whole document. */
  method RemoveAt(root: Dict, ghost trail: seq<Dict>, path: Path, target: Dict)
    requires path != [] && OnTrail(trail, path[..|path| - 1]) && trail[0] == root && trail[|path| - 1] == target
    requires path[|path| - 1] in target.entries
    modifies target`entries
    ensures root.Valid() && root.repr == old(root.repr)
    ensures root.Tree() == Delete(old(root.Tree()), path)
  {
    ghost var n := |path| - 1;
    forall j | 0 <= j <= n ensures target in trail[j].repr && target.repr <= trail[j].repr {
      TrailInside(trail, path[..n], j);
    }
    assert forall j | 0 <= j < n :: path[..n][j] == path[j];
    label Before:
    target.entries := target.entries - {path[|path| - 1]};
    target.DeletedHere@Before(path[n]);
    assert path[n..] == [path[n]];
    ghost var j := n;
    while j > 0
      invariant 0 <= j <= n
      invariant trail[j].Valid() && trail[j].Tree() == Delete(old@Before(trail[j].Tree()), path[j..])
    {
      assert path[j - 1..] == [path[j - 1]] + path[j..];
      trail[j - 1].DeletedBelow@Before(path[j - 1..]);
      j := j - 1;
    }
    assert path[0..] == path;
  }

  /** Walks down the keys of the path and removes the last one, if the walk gets there. */
  method DeletePath(root: Dict, path: Path)
    requires root.Valid() && path != []
    modifies root.repr
    ensures root.Valid() && root.repr == old(root.repr)
    ensures root.Tree() == Delete(old(root.Tree()), path)
  {
    var last := |path| - 1;
    var current: Option<Entry> := Some(Child(root));
    ghost var trail := [root];
    var i := 0;
    while i < last
      invariant 0 <= i <= last
      invariant root.Valid()
      invariant current.Some? && current.value.Child? ==>
                  OnTrail(trail, path[..i]) && trail[0] == root && trail[i] == current.value.dict
      invariant current.None? || current.value.Value? ==> Delete(root.Tree(), path) == root.Tree()
      modifies {}
    {
      if current.Some? && current.value.Child? && path[i] in current.value.dict.entries {
        var next := current.value.dict.entries[path[i]];
        assert path[..i + 1] == path[..i] + [path[i]];
        if next.Child? {
          trail := trail + [next.dict];
        } else {
          NothingToDelete(trail, path, i);
        }
        current := Some(next);
      } else {
        if current.Some? && current.value.Child? {
          NothingToDelete(trail, path, i);
        }
        current := None;
        break;
      }
      i := i + 1;
    }
    if current.Some? && current.value.Child? {
      if path[last] in current.value.dict.entries {
        TrailInside(trail, path[..last], 0);
        RemoveAt(root, trail, path, current.value.dict);
      } else {
        NothingToDelete(trail, path, last);
      }
    }
  }

  /** The deep copy: a tree of its own that holds the same document. */
  method Copy(d: Dict) returns (c: Dict)
    requires d.Valid()
    ensures c.Valid() && fresh(c.repr) && c.Tree() == d.Tree()
    decreases d.repr, 1
  {
    ghost var tree := d.Tree();
    c := new Dict();
    var left := d.entries.Keys;
    while left != {}
      invariant left <= d.entries.Keys
      invariant c.Valid() && fresh(c.repr)
      invariant c.entries.Keys == d.entries.Keys - left
      invariant forall k | k in c.entries :: c.EntryTree(k) == tree.fields[k]
      decreases left
      modifies c
    {
      var k :| k in left;
      CopyEntry(d, k, tree, c);
      left := left - {k};
    }
    assert c.Tree().fields == tree.fields;
  }

  method CopyEntry(d: Dict, k: string, ghost tree: Json, c: Dict)
    requires d.Valid() && k in d.entries && tree == d.Tree()
    requires c.Valid() && k !in c.entries && c.repr !! d.repr
    modifies c
    ensures c.Valid() && fresh(c.repr - old(c.repr))
    ensures c.entries.Keys == old(c.entries.Keys) + {k}
    ensures c.EntryTree(k) == tree.fields[k]
    ensures forall l | l in old(c.entries) :: c.EntryTree(l) == old(c.EntryTree(l))
    decreases d.repr, 0
  {
    assert tree.fields[k] == d.EntryTree(k);
    match d.entries[k] {
      case Value(j) =>
        AddValue(c, k, j);
      case Child(e) =>
        var copy := Copy(e);
        AddChild(c, k, copy);
    }
  }

  method AddValue(c: Dict, k: string, j: Json)
    requires c.Valid() && k !in c.entries && !j.Obj?
    modifies c
    ensures c.Valid() && c.repr == old(c.repr)
    ensures c.entries.Keys == old(c.entries.Keys) + {k}
    ensures c.EntryTree(k) == j && forall l | l in old(c.entries) :: c.EntryTree(l) == old(c.EntryTree(l))
  {
    c.entries := c.entries[k := Value(j)];
  }

  method AddChild(c: Dict, k: string, e: Dict)
    requires c.Valid() && k !in c.entries && e.Valid() && c.repr !! e.repr
    modifies c
    ensures c.Valid() && c.repr == old(c.repr) + e.repr
    ensures c.entries.Keys == old(c.entries.Keys) + {k}
    ensures c.EntryTree(k) == old(e.Tree()) && forall l | l in old(c.entries) :: c.EntryTree(l) == old(c.EntryTree(l))
  {
    c.entries := c.entries[k := Child(e)];
    c.repr := c.repr + e.repr;
  }

  /** Deletes the listed paths from a copy; the input is not modified. An empty path has no last key
      to look up, which is an IndexError. */
  method FilterSensitiveData(data: Dict, pathsToRemove: seq<Path>) returns (r: Option<Dict>)
    requires data.Valid()
    ensures r.Some? <==> [] !in pathsToRemove
    ensures r.Some? ==> r.value.Valid() && fresh(r.value.repr)
    ensures r.Some? ==> r.value.Tree() == DeleteAll(data.Tree(), pathsToRemove)
  {
    var filtered := Copy(data);
    for i := 0 to |pathsToRemove|
      invariant [] !in pathsToRemove[..i]
      invariant filtered.Valid() && fresh(filtered.repr)
      invariant filtered.Tree() == DeleteAll(data.Tree(), pathsToRemove[..i])
    {
      assert pathsToRemove[..i + 1][..i] == pathsToRemove[..i];
      if pathsToRemove[i] == [] {
        return None;
      }
      DeletePath(filtered, pathsToRemove[i]);
    }
    assert pathsToRemove[..|pathsToRemove|] == pathsToRemove;
    return Some(filtered);
  }
}
