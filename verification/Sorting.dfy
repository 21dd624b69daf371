/** Stable sorting by a JavaScript-style comparator, and uniqueness of sorted lists. */
module Sorting {

  type Comparator<!T> = (T, T) -> int

  /** The comparator is a total preorder. */
  ghost predicate Preorder<T(!new)>(cmp: Comparator<T>) {
    && (forall a, b :: cmp(a, b) <= 0 || cmp(b, a) <= 0)
    && (forall a, b, c :: cmp(a, b) <= 0 && cmp(b, c) <= 0 ==> cmp(a, c) <= 0)
  }

  ghost predicate SortedBy<T>(s: seq<T>, cmp: Comparator<T>) {
    forall i, j | 0 <= i < j < |s| :: cmp(s[i], s[j]) <= 0
  }

  /** Insert before the first element that is not smaller, so that equal elements keep their order. */
  function Insert<T>(x: T, s: seq<T>, cmp: Comparator<T>): (r: seq<T>)
    ensures multiset(r) == multiset{x} + multiset(s)
  {
    if s == [] then
      [x]
    else if cmp(x, s[0]) <= 0 then
      [x] + s
    else
      assert s == [s[0]] + s[1..];
      [s[0]] + Insert(x, s[1..], cmp)
  }

  function Sort<T>(s: seq<T>, cmp: Comparator<T>): (r: seq<T>)
    ensures multiset(r) == multiset(s)
  {
    if s == [] then
      []
    else
      assert s == [s[0]] + s[1..];
      Insert(s[0], Sort(s[1..], cmp), cmp)
  }

  lemma PreorderAt<T(!new)>(cmp: Comparator<T>, a: T, b: T, c: T)
    requires Preorder(cmp)
    ensures cmp(a, b) <= 0 || cmp(b, a) <= 0
    ensures cmp(a, b) <= 0 && cmp(b, c) <= 0 ==> cmp(a, c) <= 0
  {
  }

  lemma {:induction false} InsertSorted<T(!new)>(x: T, s: seq<T>, cmp: Comparator<T>)
    requires Preorder(cmp) && SortedBy(s, cmp)
    ensures SortedBy(Insert(x, s, cmp), cmp)
  {
    hide Preorder;
    if s != [] {
      PreorderAt(cmp, x, s[0], x);
      if cmp(x, s[0]) <= 0 {
        forall k | 0 <= k < |s| ensures cmp(x, s[k]) <= 0 {
          PreorderAt(cmp, x, s[0], s[k]);
        }
      } else {
        InsertSorted(x, s[1..], cmp);
        var r := Insert(x, s[1..], cmp);
        forall k | 0 <= k < |r| ensures cmp(s[0], r[k]) <= 0 {
          assert r[k] in multiset(r);
          if r[k] != x {
            assert r[k] in s[1..];
            var i :| 0 <= i < |s[1..]| && s[1..][i] == r[k];
            assert cmp(s[0], s[i + 1]) <= 0;
          }
        }
      }
    }
  }

  lemma {:induction false} SortSorts<T(!new)>(s: seq<T>, cmp: Comparator<T>)
    requires Preorder(cmp)
    ensures SortedBy(Sort(s, cmp), cmp)
  {
    if s != [] {
      SortSorts(s[1..], cmp);
      InsertSorted(s[0], Sort(s[1..], cmp), cmp);
    }
  }

  lemma SameElements<T>(a: seq<T>, b: seq<T>)
    requires multiset(a) == multiset(b)
    ensures |a| == |b| && forall x :: x in a <==> x in b
  {
    assert |multiset(a)| == |multiset(b)|;
    forall x ensures x in a <==> x in b {
      assert x in multiset(a) <==> x in multiset(b);
    }
  }

  lemma SomeElement<T>(s: seq<T>)
    ensures s == [] || exists x :: x in s
  {
    if s != [] {
      assert s[0] in s;
    }
  }

  /** Strictly ascending, and read backwards strictly descending. */
  ghost predicate Ascending<T>(s: seq<T>, cmp: Comparator<T>) {
    forall i, j | 0 <= i < j < |s| :: cmp(s[i], s[j]) < 0 && cmp(s[j], s[i]) > 0
  }

  ghost predicate SameMembers<T(!new)>(a: seq<T>, b: seq<T>) {
    forall x :: x in a <==> x in b
  }

  lemma SameHead<T(!new)>(a: seq<T>, b: seq<T>, cmp: Comparator<T>)
    requires Ascending(a, cmp) && Ascending(b, cmp) && SameMembers(a, b)
    ensures (a == [] <==> b == []) && (a != [] ==> a[0] == b[0])
  {
    SomeElement(a);
    SomeElement(b);
    if a != [] {
      assert a[0] in b && b[0] in a;
      var i :| 0 <= i < |b| && b[i] == a[0];
      var j :| 0 <= j < |a| && a[j] == b[0];
    }
  }

  /** Two strictly ascending lists of the same elements are equal. */
  lemma StrictlySortedUnique<T(!new)>(a: seq<T>, b: seq<T>, cmp: Comparator<T>)
    requires Ascending(a, cmp) && Ascending(b, cmp) && SameMembers(a, b)
    ensures a == b
  {
    SameHead(a, b, cmp);
    if a != [] {
      assert SameMembers(a[1..], b[1..]) by {
        forall x ensures x in a[1..] <==> x in b[1..] {
          TailHas(a, x, cmp);
          TailHas(b, x, cmp);
        }
      }
      hide SameMembers;
      StrictlySortedUnique(a[1..], b[1..], cmp);
      assert a == [a[0]] + a[1..] && b == [b[0]] + b[1..];
    }
  }

  lemma TailHas<T(!new)>(a: seq<T>, x: T, cmp: Comparator<T>)
    requires a != [] && Ascending(a, cmp)
    ensures x in a[1..] <==> x in a && x != a[0]
  {
    if x in a && x != a[0] {
      var i :| 0 <= i < |a| && a[i] == x;
      assert a[1..][i - 1] == x;
    }
    if x in a[1..] {
      var i :| 0 <= i < |a[1..]| && a[1..][i] == x;
      assert a[i + 1] == x && cmp(a[0], a[i + 1]) < 0 && cmp(a[i + 1], a[0]) > 0;
    }
  }
}
