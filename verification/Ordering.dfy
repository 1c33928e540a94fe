/** Python's `sorted`, on sets and on lists, and its order on strings. */
module Ordering {

  lemma LastOf<T>(s: seq<T>, x: T)
    requires s != []
    ensures x in s <==> x in s[..|s| - 1] || x == s[|s| - 1]
  {
    assert s == s[..|s| - 1] + [s[|s| - 1]];
  }

  lemma SplitLast<T>(a: seq<T>, b: seq<T>)
    requires b != []
    ensures b == b[..|b| - 1] + [b[|b| - 1]] && a + b == (a + b[..|b| - 1]) + [b[|b| - 1]]
  {
  }

  lemma Reassociated<T>(a: seq<T>, b: seq<T>, c: seq<T>)
    ensures (a + b) + c == a + (b + c)
  {
  }

  lemma TakeTake<T>(s: seq<T>, i: nat)
    requires i < |s|
    ensures s[..i + 1][..i] == s[..i]
  {
  }

  /** `order` is a total order on `s`: `sorted` then has exactly one answer. */
  ghost predicate TotalOn<T(!new)>(s: set<T>, order: (T, T) -> bool) {
    && (forall x, y | x in s && y in s :: order(x, y) || order(y, x))
    && (forall x, y | x in s && y in s && order(x, y) && order(y, x) :: x == y)
    && (forall x, y, z | x in s && y in s && z in s && order(x, y) && order(y, z) :: order(x, z))
  }

  ghost predicate Least<T(!new)>(s: set<T>, order: (T, T) -> bool, x: T) {
    x in s && forall y | y in s :: order(x, y)
  }

  lemma {:induction false} LeastExists<T(!new)>(s: set<T>, order: (T, T) -> bool) returns (x: T)
    requires s != {} && TotalOn(s, order)
    ensures Least(s, order, x)
    decreases |s|
  {
    var y :| y in s;
    if s == {y} {
      x := y;
    } else {
      var z := LeastExists(s - {y}, order);
      x := if order(y, z) then y else z;
    }
  }

  ghost predicate Ascending<T(!new)>(q: seq<T>, order: (T, T) -> bool) {
    forall i, j | 0 <= i < j < |q| :: order(q[i], q[j]) && q[i] != q[j]
  }

  /** `q` lists the members of `s`, each once, in order. */
  ghost predicate IsListing<T(!new)>(q: seq<T>, s: set<T>, order: (T, T) -> bool) {
    Ascending(q, order) && (forall x :: x in q <==> x in s)
  }

  function Sorted<T(==,!new)>(s: set<T>, order: (T, T) -> bool): (q: seq<T>)
    requires TotalOn(s, order)
    ensures IsListing(q, s, order)
    decreases |s|
  {
    if s == {} then []
    else
      assert exists x :: x in s && forall y | y in s :: order(x, y) by {
        var x := LeastExists(s, order);
      }
      var x :| x in s && forall y | y in s :: order(x, y);
      var rest := Sorted(s - {x}, order);
      assert forall j | 0 <= j < |rest| :: rest[j] in s - {x};
      [x] + rest
  }

  lemma EmptyListing<T(!new)>(q: seq<T>, s: set<T>, order: (T, T) -> bool)
    requires IsListing(q, s, order)
    ensures q == [] <==> s == {}
  {
    if |q| > 0 {
      assert q[0] in s;
    }
  }

  /** There is only one ordered listing of a set. */
  lemma {:induction false} ListingUnique<T(!new)>(p: seq<T>, q: seq<T>, s: set<T>, order: (T, T) -> bool)
    requires TotalOn(s, order) && IsListing(p, s, order) && IsListing(q, s, order)
    ensures p == q
    decreases |p|
  {
    EmptyListing(p, s, order);
    EmptyListing(q, s, order);
    if |p| > 0 {
      assert p[0] in s;
      var i :| 0 <= i < |q| && q[i] == p[0];
      assert q[0] in s;
      var j :| 0 <= j < |p| && p[j] == q[0];
      assert p[0] == q[0];
      TailIsListing(p, s, order);
      TailIsListing(q, s, order);
      ListingUnique(p[1..], q[1..], s - {p[0]}, order);
      assert p == [p[0]] + p[1..] && q == [q[0]] + q[1..];
    }
  }

  lemma TailIsListing<T(!new)>(p: seq<T>, s: set<T>, order: (T, T) -> bool)
    requires |p| > 0 && IsListing(p, s, order)
    ensures IsListing(p[1..], s - {p[0]}, order)
  {
    assert p == [p[0]] + p[1..];
    forall x ensures x in p[1..] <==> x in s - {p[0]} {
      assert x in p <==> x == p[0] || x in p[1..];
      if x in p[1..] {
        var i :| 0 <= i < |p| - 1 && p[1..][i] == x;
        assert p[i + 1] != p[0];
      }
    }
  }

  /** The members of `q` that satisfy `keep`, in place. */
  function Filter<T(!new)>(q: seq<T>, keep: T -> bool): (r: seq<T>)
    ensures forall x :: x in r <==> x in q && keep(x)
    ensures |r| <= |q|
  {
    if q == [] then []
    else (if keep(q[0]) then [q[0]] else []) + Filter(q[1..], keep)
  }

  lemma {:induction false} FilterAscending<T(!new)>(q: seq<T>, keep: T -> bool, order: (T, T) -> bool)
    requires Ascending(q, order)
    ensures Ascending(Filter(q, keep), order)
  {
    if q != [] {
      FilterAscending(q[1..], keep, order);
      var rest := Filter(q[1..], keep);
      forall x | x in rest ensures order(q[0], x) && q[0] != x {
        assert x in q[1..];
        var i :| 0 <= i < |q| - 1 && q[1..][i] == x;
        assert q[i + 1] == x;
      }
    }
  }

  /** Filtering keeps every wanted member where it is. */
  lemma {:induction false} FilterOfBoth<T(!new)>(a: seq<T>, b: seq<T>, keep: T -> bool)
    ensures Filter(a + b, keep) == Filter(a, keep) + Filter(b, keep)
    decreases |a|
  {
    if a == [] {
      assert a + b == b;
    } else {
      assert (a + b)[0] == a[0] && (a + b)[1..] == a[1..] + b;
      FilterOfBoth(a[1..], b, keep);
    }
  }

  lemma FilterOfOne<T(!new)>(x: T, keep: T -> bool)
    ensures Filter([x], keep) == if keep(x) then [x] else []
  {
    assert [x][1..] == [];
  }

  // ---- `sorted` on lists keeps repeats ----

  function Insert<T>(x: T, q: seq<T>, order: (T, T) -> bool): (r: seq<T>)
    ensures multiset(r) == multiset(q) + multiset{x}
  {
    if q == [] then [x]
    else if order(x, q[0]) then [x] + q
    else
      assert q == [q[0]] + q[1..];
      [q[0]] + Insert(x, q[1..], order)
  }

  function SortList<T>(q: seq<T>, order: (T, T) -> bool): (r: seq<T>)
    ensures multiset(r) == multiset(q)
  {
    if q == [] then []
    else
      assert q == [q[0]] + q[1..];
      Insert(q[0], SortList(q[1..], order), order)
  }

  lemma SortListMembers<T>(q: seq<T>, order: (T, T) -> bool, x: T)
    ensures x in SortList(q, order) <==> x in q
  {
    assert x in multiset(SortList(q, order)) <==> x in multiset(q);
  }

  ghost predicate TotalPreorder<T(!new)>(order: (T, T) -> bool) {
    && (forall x, y :: order(x, y) || order(y, x))
    && (forall x, y, z | order(x, y) && order(y, z) :: order(x, z))
  }

  ghost predicate InOrder<T(!new)>(q: seq<T>, order: (T, T) -> bool) {
    forall i, j | 0 <= i < j < |q| :: order(q[i], q[j])
  }

  lemma {:induction false} InsertInOrder<T(!new)>(x: T, q: seq<T>, order: (T, T) -> bool)
    requires TotalPreorder(order) && InOrder(q, order)
    ensures InOrder(Insert(x, q, order), order)
    ensures forall y :: y in Insert(x, q, order) <==> y in q || y == x
    decreases |q|
  {
    var r := Insert(x, q, order);
    forall y ensures y in r <==> y in q || y == x {
      assert y in multiset(r) <==> y in multiset(q) || y == x;
    }
    if q != [] {
      assert q == [q[0]] + q[1..];
      forall y | y in q ensures y == q[0] || order(q[0], y) {
        var k :| 0 <= k < |q| && q[k] == y;
      }
      if order(x, q[0]) {
        FirstInOrder(x, q, order);
      } else {
        var rest := Insert(x, q[1..], order);
        InsertInOrder(x, q[1..], order);
        FirstInOrder(q[0], rest, order);
      }
    }
  }

  lemma FirstInOrder<T(!new)>(x: T, q: seq<T>, order: (T, T) -> bool)
    requires InOrder(q, order) && forall y | y in q :: order(x, y)
    ensures InOrder([x] + q, order)
  {
    forall i, j | 0 <= i < j < |[x] + q| ensures order(([x] + q)[i], ([x] + q)[j]) {
      assert ([x] + q)[j] == q[j - 1];
    }
  }

  /** The result of sorting is in order. */
  lemma {:induction false} SortListInOrder<T(!new)>(q: seq<T>, order: (T, T) -> bool)
    requires TotalPreorder(order)
    ensures InOrder(SortList(q, order), order)
    decreases |q|
  {
    if q != [] {
      SortListInOrder(q[1..], order);
      InsertInOrder(q[0], SortList(q[1..], order), order);
    }
  }

  // ---- Strings compare code point by code point ----

  predicate LexLeq(a: string, b: string) {
    if a == [] then true
    else if b == [] then false
    else if a[0] != b[0] then a[0] < b[0]
    else LexLeq(a[1..], b[1..])
  }

  /** The first position at which the texts differ decides; a proper prefix comes first. */
  ghost predicate FirstDifferenceBelow(a: string, b: string) {
    exists i :: 0 <= i < |a| && i < |b| && a[..i] == b[..i] && a[i] < b[i]
  }

  lemma {:induction false} LexLeqMeaning(a: string, b: string)
    ensures LexLeq(a, b) <==> a <= b || FirstDifferenceBelow(a, b)
    decreases |a|
  {
    if a != [] && b != [] {
      if a[0] == b[0] {
        LexLeqMeaning(a[1..], b[1..]);
        DifferenceInTail(a, b);
        assert a == [a[0]] + a[1..] && b == [b[0]] + b[1..];
        assert a <= b <==> a[1..] <= b[1..];
      } else {
        DifferenceAtStart(a, b);
      }
    }
  }

  lemma DifferenceAtStart(a: string, b: string)
    requires a != [] && b != [] && a[0] != b[0]
    ensures FirstDifferenceBelow(a, b) <==> a[0] < b[0]
  {
    assert a[..0] == b[..0];
    forall i | 0 < i < |a| && i < |b| ensures a[..i] != b[..i] {
      assert a[..i][0] != b[..i][0];
    }
  }

  lemma DifferenceInTail(a: string, b: string)
    requires a != [] && b != [] && a[0] == b[0]
    ensures FirstDifferenceBelow(a, b) <==> FirstDifferenceBelow(a[1..], b[1..])
  {
    if i: nat :| i < |a| && i < |b| && a[..i] == b[..i] && a[i] < b[i] {
      assert i > 0;
      assert a[1..][..i - 1] == a[..i][1..] && b[1..][..i - 1] == b[..i][1..];
      assert a[1..][i - 1] < b[1..][i - 1];
    }
    if i: nat :| i < |a[1..]| && i < |b[1..]| && a[1..][..i] == b[1..][..i] && a[1..][i] < b[1..][i] {
      assert a[..i + 1] == [a[0]] + a[1..][..i] && b[..i + 1] == [b[0]] + b[1..][..i];
      assert a[i + 1] < b[i + 1];
    }
  }

  lemma LexIsPreorder()
    ensures TotalPreorder(LexLeq)
  {
    forall x, y ensures LexLeq(x, y) || LexLeq(y, x) {
      LexTotal(x, y);
    }
    forall x, y, z | LexLeq(x, y) && LexLeq(y, z) ensures LexLeq(x, z) {
      LexTransitive(x, y, z);
    }
  }

  lemma {:induction false} LexTotal(a: string, b: string)
    ensures LexLeq(a, b) || LexLeq(b, a)
    ensures LexLeq(a, b) && LexLeq(b, a) ==> a == b
    decreases |a|
  {
    if a != [] && b != [] && a[0] == b[0] {
      LexTotal(a[1..], b[1..]);
      assert a == [a[0]] + a[1..] && b == [b[0]] + b[1..];
    }
  }

  lemma {:induction false} LexTransitive(a: string, b: string, c: string)
    requires LexLeq(a, b) && LexLeq(b, c)
    ensures LexLeq(a, c)
    decreases |a|
  {
    if a != [] && b != [] && c != [] && a[0] == b[0] == c[0] {
      LexTransitive(a[1..], b[1..], c[1..]);
    }
  }

  lemma LexTotalOn(s: set<string>)
    ensures TotalOn(s, LexLeq)
  {
    forall x, y | x in s && y in s
      ensures LexLeq(x, y) || LexLeq(y, x)
      ensures LexLeq(x, y) && LexLeq(y, x) ==> x == y
    {
      LexTotal(x, y);
    }
    forall x, y, z | x in s && y in s && z in s && LexLeq(x, y) && LexLeq(y, z) ensures LexLeq(x, z) {
      LexTransitive(x, y, z);
    }
  }

  /** `sorted` on a set of strings. */
  function SortedIds(s: set<string>): (q: seq<string>)
    ensures IsListing(q, s, LexLeq)
  {
    LexTotalOn(s);
    Sorted(s, LexLeq)
  }
}
