/**
 * Invariants of a depth-first search with a node stack (Tarjan's strongly-connected-component
 * search), over an arbitrary finite graph: `indices` numbers the nodes in visiting order, `stack`
 * holds the indexed nodes not yet in a component, `done` the nodes of finished components, and
 * `open` the nodes whose visit is in progress.
 */
module StackSearch {
  import opened Naturals
  import opened Reachability

  ghost function Elems<N>(s: seq<N>): set<N> {
    set n | n in s
  }

  lemma ElemsNext<N>(s: seq<N>, k: nat)
    requires k < |s|
    ensures Elems(s[..k + 1]) == Elems(s[..k]) + {s[k]}
  {
  }

  lemma ElemsAppend<N>(a: seq<N>, b: seq<N>)
    ensures Elems(a + b) == Elems(a) + Elems(b)
  {
  }

  ghost predicate Increasing<N>(indices: map<N, nat>, stack: seq<N>) {
    && (forall i | 0 <= i < |stack| :: stack[i] in indices)
    && (forall i, j | 0 <= i < j < |stack| :: indices[stack[i]] < indices[stack[j]])
  }

  /** Indexed = stacked + done, and indices grow along the stack. */
  ghost predicate Booked<N>(next: nat, indices: map<N, nat>, stack: seq<N>, done: set<N>) {
    && indices.Keys == Elems(stack) + done
    && Elems(stack) !! done
    && (forall n | n in indices :: indices[n] < next)
    && Increasing(indices, stack)
  }

  /** A stacked node whose visit is over has only indexed successors. */
  ghost predicate NoEdgeToUnseen<N(!new)>(g: Digraph<N>, indices: map<N, nat>, stack: seq<N>, open: set<N>) {
    forall u, v {:trigger Edge(g, u, v)} | u in stack && u !in open && Edge(g, u, v) :: v in indices
  }

  /** Earlier stack nodes reach later ones. */
  ghost predicate StackReaches<N(!new)>(g: Digraph<N>, stack: seq<N>) {
    forall i, j {:trigger Reach(g, stack[i], stack[j])} | 0 <= i <= j < |stack| :: Reach(g, stack[i], stack[j])
  }

  /** `u` reaches an open node with an index of at most its own. */
  ghost predicate ReachesOpen<N(!new)>(g: Digraph<N>, indices: map<N, nat>, open: set<N>, u: N) {
    exists o :: o in open && o in indices && u in indices && indices[o] <= indices[u] && Reach(g, u, o)
  }

  ghost predicate AllReachOpen<N(!new)>(g: Digraph<N>, indices: map<N, nat>, stack: seq<N>, open: set<N>) {
    forall u {:trigger ReachesOpen(g, indices, open, u)} | u in stack :: ReachesOpen(g, indices, open, u)
  }

  /** What holds between any two steps of the search. */
  ghost predicate Searching<N(!new)>(g: Digraph<N>, next: nat, indices: map<N, nat>, stack: seq<N>,
                                     done: set<N>, open: set<N>) {
    && Booked(next, indices, stack, done)
    && Closed(g, done)
    && open <= Elems(stack)
    && NoEdgeToUnseen(g, indices, stack, open)
    && StackReaches(g, stack)
    && AllReachOpen(g, indices, stack, open)
  }

  /** Edges from stack positions of at least `from` to positions below `height` lead to indices of at least `low`. */
  ghost predicate CrossingAtLeast<N(!new)>(g: Digraph<N>, indices: map<N, nat>, stack: seq<N>,
                                           from: nat, height: nat, low: nat) {
    forall i, j {:trigger Edge(g, stack[i], stack[j])} |
      0 <= j < height && j < |stack| && from <= i < |stack| && Edge(g, stack[i], stack[j]) ::
      stack[j] in indices && low <= indices[stack[j]]
  }

  /** `low` is the index of a stacked node reachable from `u`. */
  ghost predicate LowIsReached<N(!new)>(g: Digraph<N>, indices: map<N, nat>, stack: seq<N>, u: N, low: nat) {
    exists w :: w in stack && w in indices && indices[w] == low && Reach(g, u, w)
  }

  lemma ReachPushed<N(!new)>(g: Digraph<N>, indices: map<N, nat>, stack: seq<N>, open: set<N>, v: N)
    requires StackReaches(g, stack) && AllReachOpen(g, indices, stack, open)
    requires forall o | o in open :: Reach(g, o, v)
    ensures StackReaches(g, stack + [v])
  {
    var stack' := stack + [v];
    forall i, j | 0 <= i <= j < |stack'| ensures Reach(g, stack'[i], stack'[j]) {
      if i == |stack| {
        ReachSelf(g, v);
      } else if j == |stack| {
        assert ReachesOpen(g, indices, open, stack[i]);
        var o :| o in open && Reach(g, stack[i], o);
        ReachTrans(g, stack[i], o, v);
      } else {
        assert Reach(g, stack[i], stack[j]);
      }
    }
  }

  lemma OpenPushed<N(!new)>(g: Digraph<N>, next: nat, indices: map<N, nat>, stack: seq<N>, open: set<N>, v: N)
    requires AllReachOpen(g, indices, stack, open) && v !in indices
    ensures AllReachOpen(g, indices[v := next], stack + [v], open + {v})
  {
    var indices', open' := indices[v := next], open + {v};
    forall u | u in stack + [v] ensures ReachesOpen(g, indices', open', u) {
      if u in stack {
        assert ReachesOpen(g, indices, open, u);
        var o :| o in open && o in indices && u in indices && indices[o] <= indices[u] && Reach(g, u, o);
        assert o in open' && indices'[o] <= indices'[u];
      } else {
        ReachSelf(g, v);
        assert v in open';
      }
    }
  }

  lemma OpenVisit<N(!new)>(g: Digraph<N>, next: nat, indices: map<N, nat>, stack: seq<N>, done: set<N>, open: set<N>,
                    v: N)
    requires Searching(g, next, indices, stack, done, open) && v !in indices
    requires forall o | o in open :: Reach(g, o, v)
    ensures Searching(g, next + 1, indices[v := next], stack + [v], done, open + {v})
  {
    ReachPushed(g, indices, stack, open, v);
    OpenPushed(g, next, indices, stack, open, v);
    ElemsAppend(stack, [v]);
    assert Elems([v]) == {v};
    assert Increasing(indices[v := next], stack + [v]);
  }

  /** A node that reached the open node `v` reaches whatever open node `v` itself reaches. */
  lemma Reroute<N(!new)>(g: Digraph<N>, indices: map<N, nat>, open: set<N>, v: N, u: N)
    requires ReachesOpen(g, indices, open + {v}, u) && ReachesOpen(g, indices, open, v)
    ensures ReachesOpen(g, indices, open, u)
  {
    var q :| q in open + {v} && q in indices && indices[q] <= indices[u] && Reach(g, u, q);
    if q == v {
      var o :| o in open && o in indices && indices[o] <= indices[v] && Reach(g, v, o);
      ReachTrans(g, u, v, o);
    }
  }

  lemma LowReachesOpen<N(!new)>(g: Digraph<N>, indices: map<N, nat>, stack: seq<N>, open: set<N>, v: N, low: nat)
    requires AllReachOpen(g, indices, stack, open + {v}) && v in indices
    requires low < indices[v] && LowIsReached(g, indices, stack, v, low)
    ensures ReachesOpen(g, indices, open, v)
  {
    var w :| w in stack && w in indices && indices[w] == low && Reach(g, v, w);
    assert ReachesOpen(g, indices, open + {v}, w);
    var o :| o in open + {v} && o in indices && indices[o] <= indices[w] && Reach(g, w, o);
    ReachTrans(g, v, w, o);
  }

  /** The visit of `v` ends with a low link below its index: `v` stays on the stack. */
  lemma StayStacked<N(!new)>(g: Digraph<N>, next: nat, indices: map<N, nat>, stack: seq<N>, done: set<N>,
                             open: set<N>, v: N, low: nat)
    requires Searching(g, next, indices, stack, done, open + {v}) && v in indices
    requires low < indices[v] && LowIsReached(g, indices, stack, v, low)
    requires forall w | Edge(g, v, w) :: w in indices
    ensures Searching(g, next, indices, stack, done, open)
  {
    LowReachesOpen(g, indices, stack, open, v, low);
    assert AllReachOpen(g, indices, stack, open) by {
      forall u | u in stack ensures ReachesOpen(g, indices, open, u) {
        assert ReachesOpen(g, indices, open + {v}, u);
        Reroute(g, indices, open, v, u);
      }
    }
    assert NoEdgeToUnseen(g, indices, stack, open);
    assert open <= Elems(stack);
  }

  lemma SplitStack<N>(indices: map<N, nat>, stack: seq<N>, height: nat)
    requires Increasing(indices, stack) && height <= |stack|
    ensures Elems(stack) == Elems(stack[..height]) + Elems(stack[height..])
    ensures Elems(stack[..height]) !! Elems(stack[height..])
    ensures Increasing(indices, stack[..height])
  {
    var low, top := stack[..height], stack[height..];
    assert stack == low + top;
    ElemsAppend(low, top);
    forall n | n in low ensures n !in top {
      var i :| 0 <= i < |low| && low[i] == n;
      forall j | 0 <= j < |top| ensures top[j] != n {
        assert indices[stack[i]] < indices[stack[height + j]];
      }
    }
  }

  /** A node at or above `height` has no successor below `height` when all crossings stay at the top's own index. */
  lemma EdgeFromTop<N(!new)>(g: Digraph<N>, indices: map<N, nat>, stack: seq<N>, done: set<N>, open: set<N>,
                             height: nat, u: N, w: N)
    requires height < |stack| && indices.Keys == Elems(stack) + done && Increasing(indices, stack)
    requires NoEdgeToUnseen(g, indices, stack, open + {stack[height]}) && open <= Elems(stack[..height])
    requires CrossingAtLeast(g, indices, stack, height, height, indices[stack[height]])
    requires forall x | Edge(g, stack[height], x) :: x in indices
    requires u in stack[height..] && Edge(g, u, w)
    ensures w in done + Elems(stack[height..])
  {
    var i :| height <= i < |stack| && stack[i] == u;
    forall k | 0 <= k < height ensures stack[..height][k] != u {
      assert indices[stack[k]] < indices[stack[i]];
    }
    assert w in indices;
    if w !in done {
      var j :| 0 <= j < |stack| && stack[j] == w;
      if j >= height {
        assert stack[height..][j - height] == w;
      }
    }
  }

  /** The visit of the node at `height` ends with its own index as low link: the stack from there up is a component. */
  lemma TopIsComponent<N(!new)>(g: Digraph<N>, next: nat, indices: map<N, nat>, stack: seq<N>, done: set<N>,
                                open: set<N>, height: nat)
    requires height < |stack| && Searching(g, next, indices, stack, done, open + {stack[height]})
    requires open <= Elems(stack[..height])
    requires forall o | o in open :: Reach(g, o, stack[height])
    requires CrossingAtLeast(g, indices, stack, height, height, indices[stack[height]])
    requires forall w | Edge(g, stack[height], w) :: w in indices
    ensures IsComponent(g, Elems(stack[height..]))
    ensures Closed(g, done + Elems(stack[height..]))
  {
    var v, top := stack[height], stack[height..];
    var c := Elems(top);
    assert v == top[0] && v in c;
    SplitStack(indices, stack, height);
    forall u | u in c ensures Mutual(g, v, u) {
      MutualInTop(g, indices, stack, open, height, u);
    }
    forall u, w | u in done + c && Edge(g, u, w) ensures w in done + c {
      if u in c {
        EdgeFromTop(g, indices, stack, done, open, height, u, w);
      }
    }
    forall x, y | x in c ensures y in c <==> Mutual(g, x, y) {
      if y in c {
        MutualTrans(g, x, v, y);
      } else if Mutual(g, x, y) {
        ReachStaysIn(g, x, y, done + c);
        ReachStaysIn(g, y, x, done);
      }
    }
  }

  lemma MutualInTop<N(!new)>(g: Digraph<N>, indices: map<N, nat>, stack: seq<N>, open: set<N>, height: nat, u: N)
    requires height < |stack| && u in stack[height..]
    requires StackReaches(g, stack) && AllReachOpen(g, indices, stack, open + {stack[height]})
    requires forall o | o in open :: Reach(g, o, stack[height])
    ensures Mutual(g, stack[height], u)
  {
    var v := stack[height];
    var i :| 0 <= i < |stack[height..]| && stack[height..][i] == u;
    assert stack[height + i] == u;
    assert Reach(g, stack[height], stack[height + i]);
    assert ReachesOpen(g, indices, open + {v}, u);
    var o :| o in open + {v} && Reach(g, u, o);
    if o != v {
      ReachTrans(g, u, o, v);
    }
  }

  /** Moving a finished component from the stack to `done` keeps the search invariant. */
  lemma PopTop<N(!new)>(g: Digraph<N>, next: nat, indices: map<N, nat>, stack: seq<N>, done: set<N>,
                        open: set<N>, height: nat)
    requires height < |stack| && Searching(g, next, indices, stack, done, open + {stack[height]})
    requires open <= Elems(stack[..height])
    requires Closed(g, done + Elems(stack[height..]))
    ensures Searching(g, next, indices, stack[..height], done + Elems(stack[height..]), open)
  {
    var v, low, top := stack[height], stack[..height], stack[height..];
    SplitStack(indices, stack, height);
    assert Booked(next, indices, low, done + Elems(top));
    assert StackReaches(g, low) by {
      forall i, j | 0 <= i <= j < |low| ensures Reach(g, low[i], low[j]) {
        assert low[i] == stack[i] && low[j] == stack[j];
      }
    }
    forall u | u in low ensures ReachesOpen(g, indices, open, u) {
      var i :| 0 <= i < height && low[i] == u;
      assert stack[i] == u && u in stack;
      assert ReachesOpen(g, indices, open + {v}, u);
      var o :| o in open + {v} && o in indices && indices[o] <= indices[u] && Reach(g, u, o);
      assert indices[stack[i]] < indices[stack[height]];
    }
    assert NoEdgeToUnseen(g, indices, low, open) by {
      forall u | u in low && u !in open ensures u in stack && u != v {
        assert u in stack;
        var i :| 0 <= i < height && low[i] == u;
        assert indices[stack[i]] < indices[stack[height]];
      }
    }
  }

  // ---------------------------------------------------------------- scanning the successors of one node

  /** The visit of `v`, at stack position `height`, has scanned the successors in `seen`. */
  ghost predicate Scanning<N(!new)>(g: Digraph<N>, indices: map<N, nat>, stack: seq<N>, height: nat, v: N,
                                    low: nat, seen: set<N>) {
    && height < |stack| && stack[height] == v && v in indices && low <= indices[v]
    && (low < indices[v] ==> LowIsReached(g, indices, stack, v, low))
    && CrossingAtLeast(g, indices, stack, height + 1, height, low)
    && (forall d | d in seen && Edge(g, v, d) :: d in indices && (d in stack[..height] ==> low <= indices[d]))
  }

  /** A successor on the stack lowers the link to its index. */
  lemma ScanStacked<N(!new)>(g: Digraph<N>, indices: map<N, nat>, stack: seq<N>, height: nat, v: N,
                             low: nat, seen: set<N>, d: N)
    requires Scanning(g, indices, stack, height, v, low, seen)
    requires Edge(g, v, d) && d in stack && d in indices
    ensures Scanning(g, indices, stack, height, v, Min(low, indices[d]), seen + {d})
  {
    ReachEdge(g, v, d);
  }

  /** A newly visited successor hands its own low link up. */
  lemma ScanChild<N(!new)>(g: Digraph<N>, indices0: map<N, nat>, stack0: seq<N>, indices: map<N, nat>, stack: seq<N>,
                           height: nat, v: N, low: nat, seen: set<N>, d: N, childLow: nat)
    requires Scanning(g, indices0, stack0, height, v, low, seen) && Edge(g, v, d) && d in indices
    requires |stack0| <= |stack| && stack[..|stack0|] == stack0
    requires forall n | n in indices0 :: n in indices && indices[n] == indices0[n]
    requires forall n | n in stack0 :: n in indices0
    requires CrossingAtLeast(g, indices, stack, |stack0|, |stack0|, childLow)
    requires indices[v] < indices[d] && (childLow < indices[d] ==> LowIsReached(g, indices, stack, d, childLow))
    requires d !in stack0
    ensures Scanning(g, indices, stack, height, v, Min(low, childLow), seen + {d})
  {
    var low' := Min(low, childLow);
    assert stack[..height] == stack0[..height];
    if low' < indices[v] {
      if childLow < low {
        var w :| w in stack && w in indices && indices[w] == childLow && Reach(g, d, w);
        ReachEdge(g, v, d);
        ReachTrans(g, v, d, w);
      } else {
        var w :| w in stack0 && w in indices0 && indices0[w] == low && Reach(g, v, w);
        assert w in stack;
      }
    }
    forall i, j | 0 <= j < height && height + 1 <= i < |stack| && Edge(g, stack[i], stack[j])
      ensures stack[j] in indices && low' <= indices[stack[j]]
    {
      assert stack[j] == stack0[j];
      if i < |stack0| {
        assert stack[i] == stack0[i];
      }
    }
  }

  /** Once every successor is scanned, all edges leaving the top respect the low link. */
  lemma ScanComplete<N(!new)>(g: Digraph<N>, indices: map<N, nat>, stack: seq<N>, height: nat, v: N,
                              low: nat, seen: set<N>)
    requires Scanning(g, indices, stack, height, v, low, seen)
    requires v in indices && forall d | Edge(g, v, d) :: d in seen
    ensures CrossingAtLeast(g, indices, stack, height, height, low)
    ensures forall w | Edge(g, v, w) :: w in indices
    ensures low <= indices[v] && (low < indices[v] ==> LowIsReached(g, indices, stack, v, low))
  {
    forall j | 0 <= j < height && Edge(g, v, stack[j]) ensures stack[j] in indices && low <= indices[stack[j]] {
      assert stack[j] == stack[..height][j];
    }
  }
}
