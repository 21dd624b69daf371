/** Paths and strongly connected components of a finite directed graph. */
module Reachability {
  import opened Sets

  /** A graph maps every node to its successors. */
  type Digraph<N(==)> = map<N, set<N>>

  ghost predicate Edge<N>(g: Digraph<N>, u: N, v: N) {
    u in g && v in g[u]
  }

  ghost predicate IsPath<N>(g: Digraph<N>, p: seq<N>) {
    && |p| > 0
    && forall i | 0 <= i < |p| - 1 :: Edge(g, p[i], p[i + 1])
  }

  ghost predicate PathBetween<N>(g: Digraph<N>, p: seq<N>, u: N, v: N) {
    IsPath(g, p) && p[0] == u && p[|p| - 1] == v
  }

  /** Reachability in zero or more steps. */
  ghost predicate Reach<N(!new)>(g: Digraph<N>, u: N, v: N) {
    exists p :: PathBetween(g, p, u, v)
  }

  ghost predicate Mutual<N(!new)>(g: Digraph<N>, u: N, v: N) {
    Reach(g, u, v) && Reach(g, v, u)
  }

  /** A maximal strongly connected set: exactly the nodes mutually reachable with each of its members. */
  ghost predicate IsComponent<N(!new)>(g: Digraph<N>, c: set<N>) {
    && c != {}
    && forall u, v | u in c :: v in c <==> Mutual(g, u, v)
  }

  ghost predicate Closed<N(!new)>(g: Digraph<N>, s: set<N>) {
    forall u, v | u in s && Edge(g, u, v) :: v in s
  }

  ghost predicate HasInnerEdge<N(!new)>(g: Digraph<N>, c: set<N>) {
    exists u, v :: u in c && v in c && Edge(g, u, v)
  }

  /** A component that contains a cycle and that no edge leaves. */
  ghost predicate IsSinkCycle<N(!new)>(g: Digraph<N>, c: set<N>) {
    IsComponent(g, c) && Closed(g, c) && HasInnerEdge(g, c)
  }

  lemma ReachSelf<N(!new)>(g: Digraph<N>, u: N)
    ensures Reach(g, u, u)
  {
    assert PathBetween(g, [u], u, u);
  }

  lemma ReachEdge<N(!new)>(g: Digraph<N>, u: N, v: N)
    requires Edge(g, u, v)
    ensures Reach(g, u, v)
  {
    assert PathBetween(g, [u, v], u, v);
  }

  lemma ReachTrans<N(!new)>(g: Digraph<N>, u: N, v: N, w: N)
    requires Reach(g, u, v) && Reach(g, v, w)
    ensures Reach(g, u, w)
  {
    var p :| PathBetween(g, p, u, v);
    var q :| PathBetween(g, q, v, w);
    var r := p + q[1..];
    forall i | 0 <= i < |r| - 1
      ensures Edge(g, r[i], r[i + 1])
    {
      if i >= |p| {
        assert Edge(g, q[i - |p| + 1], q[i - |p| + 2]);
      } else if i == |p| - 1 {
        assert Edge(g, q[0], q[1]);
      } else {
        assert Edge(g, p[i], p[i + 1]);
      }
    }
    assert PathBetween(g, r, u, w);
  }

  lemma PathStaysIn<N(!new)>(g: Digraph<N>, p: seq<N>, s: set<N>, k: nat)
    requires IsPath(g, p) && p[0] in s && Closed(g, s) && k < |p|
    ensures p[k] in s
  {
    if k > 0 {
      PathStaysIn(g, p, s, k - 1);
      assert Edge(g, p[k - 1], p[k]);
    }
  }

  /** Nothing outside a closed set is reachable from inside it. */
  lemma ReachStaysIn<N(!new)>(g: Digraph<N>, u: N, v: N, s: set<N>)
    requires Reach(g, u, v) && u in s && Closed(g, s)
    ensures v in s
  {
    var p :| PathBetween(g, p, u, v);
    PathStaysIn(g, p, s, |p| - 1);
  }

  /** The first step of a path between two different nodes. */
  lemma FirstStep<N(!new)>(g: Digraph<N>, u: N, v: N) returns (x: N)
    requires Reach(g, u, v) && u != v
    ensures Edge(g, u, x) && Reach(g, x, v)
  {
    var p :| PathBetween(g, p, u, v);
    x := p[1];
    assert Edge(g, p[0], p[1]);
    assert IsPath(g, p[1..]) by {
      forall i | 0 <= i < |p[1..]| - 1 ensures Edge(g, p[1..][i], p[1..][i + 1]) {
        assert Edge(g, p[i + 1], p[i + 2]);
      }
    }
    assert PathBetween(g, p[1..], x, v);
  }

  /** Two components that share a node are equal. */
  lemma ComponentsOverlap<N(!new)>(g: Digraph<N>, c: set<N>, d: set<N>, u: N)
    requires IsComponent(g, c) && IsComponent(g, d) && u in c && u in d
    ensures c == d
  {
    forall v ensures v in c <==> v in d {
      assert v in c <==> Mutual(g, u, v);
    }
  }

  lemma MutualTrans<N(!new)>(g: Digraph<N>, u: N, v: N, w: N)
    requires Mutual(g, u, v) && Mutual(g, v, w)
    ensures Mutual(g, u, w)
  {
    ReachTrans(g, u, v, w);
    ReachTrans(g, w, v, u);
  }

  /** A component has an inner edge exactly when it has two nodes or a self-loop. */
  lemma InnerEdgeIff<N(!new)>(g: Digraph<N>, c: set<N>, first: N)
    requires IsComponent(g, c) && first in c
    ensures HasInnerEdge(g, c) <==> |c| > 1 || Edge(g, first, first)
  {
    if HasInnerEdge(g, c) && !Edge(g, first, first) {
      var u, v :| u in c && v in c && Edge(g, u, v);
      if u == first {
        assert {first, v} <= c && |{first, v}| == 2;
        SubsetSize({first, v}, c);
      } else {
        assert {first, u} <= c && |{first, u}| == 2;
        SubsetSize({first, u}, c);
      }
    }
    if |c| > 1 {
      assert |c - {first}| == |c| - 1;
      var w :| w in c - {first};
      assert Mutual(g, first, w);
      var x := FirstStep(g, first, w);
      ReachEdge(g, first, x);
      ReachTrans(g, x, w, first);
      assert Mutual(g, first, x);
      assert x in c;
    }
  }

  /** The nodes of `s` reachable from `u`. */
  ghost function ReachSet<N(!new)>(g: Digraph<N>, s: set<N>, u: N): set<N> {
    set v | v in s && Reach(g, u, v)
  }

  /** Every finite non-empty graph in which each node has a successor contains a cyclic component
      that no edge leaves. */
  lemma SinkCycleExists<N(!new)>(g: Digraph<N>) returns (c: set<N>)
    requires g.Keys != {} && Closed(g, g.Keys)
    requires forall u | u in g :: g[u] != {}
    ensures IsSinkCycle(g, c) && c <= g.Keys
  {
    var u :| u in g;
    c := Narrow(g, u);
  }

  lemma Narrow<N(!new)>(g: Digraph<N>, u: N) returns (c: set<N>)
    requires u in g && Closed(g, g.Keys)
    requires forall n | n in g :: g[n] != {}
    ensures IsSinkCycle(g, c) && c <= g.Keys
    decreases |ReachSet(g, g.Keys, u)|
  {
    var s := ReachSet(g, g.Keys, u);
    ReachSelf(g, u);
    if v :| v in s && !Reach(g, v, u) {
      var t := ReachSet(g, g.Keys, v);
      forall w | w in t ensures w in s {
        ReachTrans(g, u, v, w);
      }
      assert u in s && u !in t;
      SubsetSize(t, s - {u});
      c := Narrow(g, v);
    } else {
      c := s;
      forall x, y | x in s
        ensures y in s <==> Mutual(g, x, y)
      {
        if y in s {
          ReachTrans(g, x, u, y);
          ReachTrans(g, y, u, x);
        }
        if Mutual(g, x, y) {
          ReachStaysIn(g, x, y, g.Keys);
          ReachTrans(g, u, x, y);
        }
      }
      forall x, y | x in s && Edge(g, x, y) ensures y in s {
        ReachEdge(g, x, y);
        ReachTrans(g, u, x, y);
      }
      var y :| y in g[u];
      assert Edge(g, u, y);
    }
  }
}
