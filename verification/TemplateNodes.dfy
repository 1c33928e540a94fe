/** Templates on the heap: dictionaries and lists that are updated in place. */
module TemplateNodes {
  import opened JsonTrees
  import opened AssetTemplates

  datatype Slot = Value(json: Json) | Child(node: TemplateNode)

  datatype Shape = Dict(entries: map<string, Slot>) | Items(items: seq<Slot>)

  /** The tree with the value at one place of its root replaced. */
  function Put(t: Json, s: Step, v: Json): Json {
    match (t, s)
    case (Obj(fields), Key(k)) => Obj(fields[k := v])
    case (List(items), Index(i)) => if i < |items| then List(items[i := v]) else t
    case _ => t
  }

  /** A dictionary or a list. It owns everything it was built from. */
  class TemplateNode {
    var shape: Shape
    ghost const repr: set<TemplateNode>

    constructor (shape: Shape, ghost parts: set<TemplateNode>)
      ensures this.shape == shape && repr == parts + {this}
    {
      this.shape := shape;
      repr := parts + {this};
    }

    predicate Has(s: Step)
      reads this
    {
      match s
      case Key(k) => shape.Dict? && k in shape.entries
      case Index(i) => shape.Items? && i < |shape.items|
    }

    function SlotAt(s: Step): Slot
      requires Has(s)
      reads this
    {
      match s
      case Key(k) => shape.entries[k]
      case Index(i) => shape.items[i]
    }

    /** What the child at a place owns. */
    ghost function PartAt(s: Step): set<TemplateNode>
      reads this
    {
      if Has(s) && SlotAt(s).Child? then SlotAt(s).node.repr else {}
    }

    /** A child owns a part of its own, without its parent. */
    ghost predicate Owns(s: Step)
      requires Has(s)
      reads this
    {
      SlotAt(s).Child? ==> SlotAt(s).node in PartAt(s) && PartAt(s) < repr && this !in PartAt(s)
    }

    ghost predicate Disjoint()
      reads this
    {
      forall s, t {:trigger PartAt(s), PartAt(t)} | Has(s) && Has(t) && s != t :: PartAt(s) !! PartAt(t)
    }

    ghost predicate Valid()
      reads this, repr
      decreases repr
    {
      && this in repr
      && (forall s {:trigger Owns(s)} {:trigger PartAt(s)} | Has(s) :: Owns(s))
      && (forall s {:trigger SlotAt(s)} | Has(s) ::
            if SlotAt(s).Child? then Owns(s) && SlotAt(s).node.Valid()
            else !SlotAt(s).json.Obj? && !SlotAt(s).json.List?)
      && Disjoint()
    }

    /** The template it holds. */
    ghost function Tree(): (t: Json)
      requires Valid()
      reads this, repr
      ensures if shape.Dict? then t.Obj? && t.fields.Keys == shape.entries.Keys
              else t.List? && |t.items| == |shape.items|
      decreases repr
    {
      match shape
      case Dict(entries) => Obj(map k | k in entries :: TreeAt(Key(k)))
      case Items(items) =>
        List(seq(|items|, i requires 0 <= i < |items| && Valid() && shape == Items(items) reads this, repr =>
          TreeAt(Index(i))))
    }

    ghost function TreeAt(s: Step): Json
      requires Valid() && Has(s)
      reads this, repr
      decreases repr, 0
    {
      match SlotAt(s)
      case Value(j) => j
      case Child(n) => n.Tree()
    }

    /** One place changed, to a plain value or inside its child; everything else is as it was. */
    twostate lemma Changed(s: Step)
      requires old(Valid()) && old(Has(s))
      requires forall t :: Has(t) <==> old(Has(t))
      requires forall t | t != s && Has(t) :: SlotAt(t) == old(SlotAt(t))
      requires unchanged(old(repr - {this} - PartAt(s)))
      requires if SlotAt(s).Child? then SlotAt(s) == old(SlotAt(s)) && SlotAt(s).node.Valid()
               else !SlotAt(s).json.Obj? && !SlotAt(s).json.List?
      ensures Valid() && Tree() == Put(old(Tree()), s, TreeAt(s))
    {
      forall t | t != s && Has(t) ensures old(Owns(t)) && PartAt(t) == old(PartAt(t)) && PartAt(t) !! old(PartAt(s)) {
      }
      forall t | t != s && Has(t) && SlotAt(t).Child?
        ensures SlotAt(t).node.Valid() && SlotAt(t).node.Tree() == old(SlotAt(t).node.Tree())
      {
        Untouched(SlotAt(t).node);
      }
      assert Valid();
      forall t | t != s && Has(t) ensures TreeAt(t) == old(TreeAt(t)) {
      }
      PutTree(s);
    }

    twostate lemma PutTree(s: Step)
      requires old(Valid()) && Valid() && Has(s)
      requires forall t :: Has(t) <==> old(Has(t))
      requires forall t | t != s && Has(t) :: TreeAt(t) == old(TreeAt(t))
      ensures Tree() == Put(old(Tree()), s, TreeAt(s))
    {
      match s
      case Key(k) =>
        assert old(Has(s));
        forall l ensures l in Tree().fields <==> l in old(Tree()).fields {
          assert Has(Key(l)) <==> old(Has(Key(l)));
        }
        forall l | l in Tree().fields && l != k ensures Tree().fields[l] == old(Tree()).fields[l] {
          assert Has(Key(l)) && TreeAt(Key(l)) == old(TreeAt(Key(l)));
        }
        assert Tree().fields == old(Tree()).fields[k := TreeAt(s)];
      case Index(i) =>
        assert old(Has(s));
        assert !Has(Index(|shape.items|)) && !old(Has(Index(|shape.items|)));
        forall l | 0 <= l < |Tree().items| && l != i ensures Tree().items[l] == old(Tree()).items[l] {
          assert Has(Index(l)) && TreeAt(Index(l)) == old(TreeAt(Index(l)));
        }
        assert Tree().items == old(Tree()).items[i := TreeAt(s)];
    }

    /** One entry is gone. */
    twostate lemma Removed(k: string)
      requires old(Valid()) && old(shape).Dict? && k in old(shape).entries
      requires shape == Dict(old(shape).entries - {k}) && unchanged(repr - {this})
      ensures Valid() && Tree() == Delete(old(Tree()), [k])
    {
      forall t | Has(t) ensures old(Owns(t)) && SlotAt(t) == old(SlotAt(t)) {
      }
      forall t | Has(t) && SlotAt(t).Child?
        ensures SlotAt(t).node.Valid() && SlotAt(t).node.Tree() == old(SlotAt(t).node.Tree())
      {
        Untouched(SlotAt(t).node);
      }
      assert Valid();
      forall t | Has(t) ensures TreeAt(t) == old(TreeAt(t)) {
      }
      assert Tree().fields == old(Tree()).fields - {k};
    }

    /** Assigns a plain value to a place. */
    method Assign(s: Step, j: Json)
      requires Valid() && Has(s) && !j.Obj? && !j.List?
      modifies this`shape
      ensures Valid() && Tree() == Put(old(Tree()), s, j)
      ensures shape == match s
                       case Key(k) => Dict(old(shape).entries[k := Value(j)])
                       case Index(i) => Items(old(shape).items[i := Value(j)])
    {
      label Before:
      match s {
        case Key(k) => shape := Dict(shape.entries[k := Value(j)]);
        case Index(i) => shape := Items(shape.items[i := Value(j)]);
      }
      Changed@Before(s);
    }

    method Remove(k: string)
      requires Valid() && Has(Key(k))
      modifies this`shape
      ensures Valid() && Tree() == Delete(old(Tree()), [k])
      ensures shape == Dict(old(shape).entries - {k})
    {
      label Before:
      shape := Dict(shape.entries - {k});
      Removed@Before(k);
    }
  }

  twostate lemma Untouched(n: TemplateNode)
    requires old(n.Valid()) && unchanged(n, n.repr)
    ensures n.Valid() && n.Tree() == old(n.Tree())
  {
  }
}
