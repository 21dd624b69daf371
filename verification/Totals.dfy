/** Sums of a real-valued function over lists, and over lists of lists. */
module Totals {

  function Total<T>(f: T -> real, s: seq<T>): real {
    if s == [] then 0.0 else Total(f, s[..|s| - 1]) + f(s[|s| - 1])
  }

  function Concat<T>(lists: seq<seq<T>>): seq<T> {
    if lists == [] then [] else Concat(lists[..|lists| - 1]) + lists[|lists| - 1]
  }

  ghost function TotalEach<T>(f: T -> real, lists: seq<seq<T>>): real {
    if lists == [] then 0.0 else TotalEach(f, lists[..|lists| - 1]) + Total(f, lists[|lists| - 1])
  }

  lemma {:induction false} TotalAppend<T>(f: T -> real, a: seq<T>, b: seq<T>)
    ensures Total(f, a + b) == Total(f, a) + Total(f, b)
  {
    if b == [] {
      assert a + b == a;
    } else {
      var c := b[..|b| - 1];
      assert (a + b)[..|a + b| - 1] == a + c;
      TotalAppend(f, a, c);
    }
  }

  lemma {:induction false} TotalConcat<T>(f: T -> real, lists: seq<seq<T>>)
    ensures Total(f, Concat(lists)) == TotalEach(f, lists)
  {
    if lists != [] {
      TotalConcat(f, lists[..|lists| - 1]);
      TotalAppend(f, Concat(lists[..|lists| - 1]), lists[|lists| - 1]);
    }
  }

  lemma TotalAround<T>(f: T -> real, a: seq<T>, x: T, c: seq<T>)
    ensures Total(f, a + [x] + c) == Total(f, a + c) + f(x)
    ensures multiset(a + [x] + c) == multiset(a + c) + multiset{x}
  {
    TotalAppend(f, a, c);
    TotalAppend(f, a + [x], c);
    assert (a + [x])[..|a|] == a;
  }

  /** A sum does not depend on the order of its terms. */
  lemma {:induction false} TotalPermuted<T>(f: T -> real, a: seq<T>, b: seq<T>)
    requires multiset(a) == multiset(b)
    ensures Total(f, a) == Total(f, b)
  {
    if a == [] {
      assert |multiset(b)| == 0;
    } else {
      var x, front := a[|a| - 1], a[..|a| - 1];
      assert a == front + [x];
      assert x in multiset(b);
      var i :| 0 <= i < |b| && b[i] == x;
      TotalAround(f, b[..i], x, b[i + 1..]);
      assert b == b[..i] + [x] + b[i + 1..];
      RemoveSame(multiset(front), multiset(b[..i] + b[i + 1..]), x);
      TotalPermuted(f, front, b[..i] + b[i + 1..]);
    }
  }

  lemma RemoveSame<T>(a: multiset<T>, b: multiset<T>, x: T)
    requires a + multiset{x} == b + multiset{x}
    ensures a == b
  {
    assert a == (a + multiset{x}) - multiset{x};
    assert b == (b + multiset{x}) - multiset{x};
  }

  lemma {:induction false} TotalAtLeast<T>(f: T -> real, s: seq<T>, low: real)
    requires forall x | x in s :: f(x) >= low
    ensures Total(f, s) >= |s| as real * low
  {
    if s != [] {
      TotalAtLeast(f, s[..|s| - 1], low);
      assert |s| as real * low == (|s| - 1) as real * low + low;
    }
  }

  lemma {:induction false} EachAtLeast<T>(f: T -> real, lists: seq<seq<T>>, low: real)
    requires forall i | 0 <= i < |lists| :: Total(f, lists[i]) >= low
    ensures TotalEach(f, lists) >= |lists| as real * low
  {
    if lists != [] {
      EachAtLeast(f, lists[..|lists| - 1], low);
      assert |lists| as real * low == (|lists| - 1) as real * low + low;
    }
  }

  lemma {:induction false} EachAtMost<T>(f: T -> real, lists: seq<seq<T>>, high: real)
    requires forall i | 0 <= i < |lists| :: Total(f, lists[i]) <= high
    ensures TotalEach(f, lists) <= |lists| as real * high
  {
    if lists != [] {
      EachAtMost(f, lists[..|lists| - 1], high);
      assert |lists| as real * high == (|lists| - 1) as real * high + high;
    }
  }

  lemma {:induction false} ConcatHas<T>(lists: seq<seq<T>>, x: T)
    ensures x in Concat(lists) <==> exists i :: 0 <= i < |lists| && x in lists[i]
  {
    if lists != [] {
      var k := |lists| - 1;
      ConcatHas(lists[..k], x);
      if x in Concat(lists[..k]) {
        var i :| 0 <= i < k && x in lists[..k][i];
        assert x in lists[i];
      } else {
        assert forall i | 0 <= i < k :: lists[i] == lists[..k][i];
      }
    }
  }
}
