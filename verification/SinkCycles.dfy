/**
 * The search for cyclic components that no dependency leaves: Tarjan's algorithm with the source's
 * explicit index map, low-link map, node stack and component list.
 */
module SinkCycles {
  import opened Naturals
  import opened Reachability
  import opened StackSearch
  import opened Packages

  /** Names of all packages in the popped components. */
  ghost function Popped(components: seq<seq<Package>>): set<string> {
    if components == [] then {} else Popped(components[..|components| - 1]) + Names(components[|components| - 1])
  }

  lemma PoppedAppend(components: seq<seq<Package>>, c: seq<Package>)
    ensures Popped(components + [c]) == Popped(components) + Names(c)
  {
    assert (components + [c])[..|components|] == components;
  }

  lemma PoppedHas(components: seq<seq<Package>>, i: nat)
    requires i < |components|
    ensures Names(components[i]) <= Popped(components)
  {
    if i < |components| - 1 {
      PoppedHas(components[..|components| - 1], i);
    }
  }

  lemma PoppedFrom(components: seq<seq<Package>>, n: string) returns (i: nat)
    requires n in Popped(components)
    ensures i < |components| && n in Names(components[i])
  {
    var last := |components| - 1;
    if n in Names(components[last]) {
      i := last;
    } else {
      i := PoppedFrom(components[..last], n);
    }
  }

  /** A list of a whole component, each member once. */
  ghost predicate ListsComponent(all: PackageMap, c: seq<Package>) {
    ListedIn(c, all) && NoRepeats(c) && IsComponent(GraphOf(all), Names(c))
  }

  ghost predicate Disjoint(components: seq<seq<Package>>) {
    forall i, j | 0 <= i < j < |components| :: Names(components[i]) !! Names(components[j])
  }

  lemma DisjointAppend(components: seq<seq<Package>>, c: seq<Package>)
    requires Disjoint(components) && Names(c) !! Popped(components)
    ensures Disjoint(components + [c])
  {
    forall i | 0 <= i < |components| ensures Names(components[i]) !! Names(c) {
      PoppedHas(components, i);
    }
  }

  lemma EdgesOf(all: PackageMap, u: string, v: string)
    ensures Edge(GraphOf(all), u, v) <==> u in all && v in all[u].deps && v in all
  {
  }

  /** The state between two steps of the search; `open` names the visits in progress. */
  ghost predicate Consistent(all: PackageMap, g: Digraph<string>, next: nat, indices: map<string, nat>,
                             lowLinks: map<string, nat>, stack: seq<Package>, stacked: set<string>,
                             components: seq<seq<Package>>, open: set<string>) {
    && Searching(g, next, indices, Shorts(stack), Popped(components), open)
    && ListedIn(stack, all)
    && stacked == Names(stack)
    && indices.Keys == lowLinks.Keys <= all.Keys
    && (forall c | c in components :: ListsComponent(all, c))
    && Disjoint(components)
  }

  lemma EnterKeeps(all: PackageMap, g: Digraph<string>, next: nat, indices: map<string, nat>,
                   lowLinks: map<string, nat>, stack: seq<Package>, stacked: set<string>,
                   components: seq<seq<Package>>, open: set<string>, pkg: Package)
    requires Consistent(all, g, next, indices, lowLinks, stack, stacked, components, open)
    requires pkg.short in all && all[pkg.short] == pkg && pkg.short !in indices
    requires forall o | o in open :: Reach(g, o, pkg.short)
    ensures Consistent(all, g, next + 1, indices[pkg.short := next], lowLinks[pkg.short := next],
                       stack + [pkg], stacked + {pkg.short}, components, open + {pkg.short})
  {
    OpenVisit(g, next, indices, Shorts(stack), Popped(components), open, pkg.short);
    ShortsAppend(stack, [pkg]);
    assert Shorts([pkg]) == [pkg.short];
  }

  /** Moving the top of the stack, from `height` up, to the component list. */
  lemma PopKeeps(all: PackageMap, g: Digraph<string>, next: nat, indices: map<string, nat>,
                 lowLinks: map<string, nat>, stack: seq<Package>, stacked: set<string>,
                 components: seq<seq<Package>>, open: set<string>, height: nat, component: seq<Package>)
    requires g == GraphOf(all) && height < |stack|
    requires Consistent(all, g, next, indices, lowLinks, stack, stacked, components, open + {stack[height].short})
    requires open <= Names(stack[..height])
    requires forall o | o in open :: Reach(g, o, stack[height].short)
    requires CrossingAtLeast(g, indices, Shorts(stack), height, height, indices[stack[height].short])
    requires forall w | Edge(g, stack[height].short, w) :: w in indices
    requires IsReversed(component, stack[height..])
    ensures Consistent(all, g, next, indices, lowLinks, stack[..height], Names(stack[..height]),
                       components + [component], open)
  {
    var names := Shorts(stack);
    var done := Popped(components);
    ShortsSlices(stack, height);
    TopIsComponent(g, next, indices, names, done, open, height);
    PopTop(g, next, indices, names, done, open, height);
    ReversedNames(component, stack[height..]);
    PoppedAppend(components, component);
    DistinctTop(indices, stack, height, component);
    SplitStack(indices, names, height);
    assert ListsComponent(all, component);
    DisjointAppend(components, component);
  }

  ghost predicate IsReversed(c: seq<Package>, top: seq<Package>) {
    |c| == |top| && forall k | 0 <= k < |c| :: c[k] == top[|c| - 1 - k]
  }

  lemma ReversedNames(c: seq<Package>, top: seq<Package>)
    requires IsReversed(c, top)
    ensures Names(c) == Names(top)
    ensures forall p :: p in c <==> p in top
  {
    forall p ensures p in c <==> p in top {
      if p in top {
        var i :| 0 <= i < |top| && top[i] == p;
        assert c[|c| - 1 - i] == p;
      }
    }
    forall n ensures n in Names(c) <==> n in Names(top) {
      NamesIff(c, n);
      NamesIff(top, n);
    }
  }

  lemma ShortsSlices(stack: seq<Package>, height: nat)
    requires height <= |stack|
    ensures Shorts(stack[..height]) == Shorts(stack)[..height]
    ensures Shorts(stack[height..]) == Shorts(stack)[height..]
  {
  }

  lemma DistinctTop(indices: map<string, nat>, stack: seq<Package>, height: nat, c: seq<Package>)
    requires Increasing(indices, Shorts(stack)) && height <= |stack| && IsReversed(c, stack[height..])
    ensures NoRepeats(c)
  {
    forall i, j | 0 <= i < j < |c| ensures c[i].short != c[j].short {
      var k, m := |stack| - 1 - j, |stack| - 1 - i;
      assert c[i] == stack[m] && c[j] == stack[k];
      assert indices[Shorts(stack)[k]] < indices[Shorts(stack)[m]];
    }
  }

  lemma PopName(indices: map<string, nat>, stack: seq<Package>)
    requires Increasing(indices, Shorts(stack)) && stack != []
    ensures Increasing(indices, Shorts(stack[..|stack| - 1]))
    ensures Names(stack[..|stack| - 1]) == Names(stack) - {stack[|stack| - 1].short}
  {
    var n := |stack| - 1;
    ShortsSlices(stack, n);
    SplitStack(indices, Shorts(stack), n);
    assert Shorts(stack)[n..] == [stack[n].short];
  }

  lemma StackFacts(all: PackageMap, g: Digraph<string>, next: nat, indices: map<string, nat>,
                   lowLinks: map<string, nat>, stack: seq<Package>, stacked: set<string>,
                   components: seq<seq<Package>>, open: set<string>)
    requires Consistent(all, g, next, indices, lowLinks, stack, stacked, components, open)
    ensures Increasing(indices, Shorts(stack)) && stacked == Names(stack)
    ensures indices.Keys == lowLinks.Keys <= all.Keys
    ensures Names(stack) <= indices.Keys && open <= Names(stack)
    ensures forall n | n in indices :: indices[n] < next
  {
  }

  lemma OnlyPosition(all: PackageMap, g: Digraph<string>, next: nat, indices: map<string, nat>,
                     lowLinks: map<string, nat>, stack: seq<Package>, stacked: set<string>,
                     components: seq<seq<Package>>, open: set<string>, i: nat, j: nat)
    requires Consistent(all, g, next, indices, lowLinks, stack, stacked, components, open)
    requires i < |stack| && j < |stack| && stack[i] == stack[j]
    ensures i == j
  {
    assert Shorts(stack)[i] == Shorts(stack)[j];
    assert Increasing(indices, Shorts(stack));
  }

  /** Earlier index and low-link entries are left alone. */
  ghost predicate KeepsEarlier(indices0: map<string, nat>, indices: map<string, nat>,
                               lowLinks0: map<string, nat>, lowLinks: map<string, nat>) {
    && (forall n | n in indices0 :: n in indices && indices[n] == indices0[n])
    && (forall n | n in lowLinks0 :: n in lowLinks && lowLinks[n] == lowLinks0[n])
  }

  /** Steps that may change `v`'s low link alone do so together. */
  lemma KeepsEarlierStep(indices0: map<string, nat>, indices: map<string, nat>, indices': map<string, nat>,
                         low0: map<string, nat>, low: map<string, nat>, low': map<string, nat>, v: string)
    requires KeepsEarlier(indices0, indices, low0 - {v}, low) && KeepsEarlier(indices, indices', low - {v}, low')
    ensures KeepsEarlier(indices0, indices', low0 - {v}, low')
    ensures indices.Keys <= indices'.Keys && forall n | n in indices :: indices'[n] == indices[n]
  {
    forall n | n in low0 - {v} ensures n in low' && low'[n] == low0[n] {
      assert n in low - {v};
    }
  }

  /** Indexing `v` and what follows keep everything from before. */
  lemma KeepsBefore(indices0: map<string, nat>, indices: map<string, nat>, low0: map<string, nat>, low: map<string, nat>,
                    v: string, next: nat)
    requires v !in indices0 && v !in low0
    requires KeepsEarlier(indices0[v := next], indices, low0[v := next] - {v}, low)
    ensures KeepsEarlier(indices0, indices, low0, low) && v in indices && indices[v] == next
  {
    forall n | n in low0 ensures n in low && low[n] == low0[n] {
      assert n in low0[v := next] - {v};
    }
    assert v in indices0[v := next];
  }

  lemma ScanStart(g: Digraph<string>, indices: map<string, nat>, stack: seq<Package>, height: nat, pkg: Package)
    requires |stack| == height + 1 && stack[height] == pkg && pkg.short in indices
    ensures Scanning(g, indices, Shorts(stack), height, pkg.short, indices[pkg.short], {})
  {
  }

  lemma StayKeeps(all: PackageMap, g: Digraph<string>, next: nat, indices: map<string, nat>,
                  lowLinks: map<string, nat>, stack: seq<Package>, stacked: set<string>,
                  components: seq<seq<Package>>, open: set<string>, v: string)
    requires Consistent(all, g, next, indices, lowLinks, stack, stacked, components, open + {v})
    requires v in indices && v in lowLinks && lowLinks[v] < indices[v]
    requires LowIsReached(g, indices, Shorts(stack), v, lowLinks[v])
    requires forall w | Edge(g, v, w) :: w in indices
    ensures Consistent(all, g, next, indices, lowLinks, stack, stacked, components, open)
  {
    StayStacked(g, next, indices, Shorts(stack), Popped(components), open, v, lowLinks[v]);
  }

  lemma LowLinksFree(all: PackageMap, g: Digraph<string>, next: nat, indices: map<string, nat>,
                     lowLinks: map<string, nat>, stack: seq<Package>, stacked: set<string>,
                     components: seq<seq<Package>>, open: set<string>, v: string, low: nat)
    requires Consistent(all, g, next, indices, lowLinks, stack, stacked, components, open) && v in lowLinks
    ensures Consistent(all, g, next, indices, lowLinks[v := low], stack, stacked, components, open)
  {
  }

  lemma OpenReachesTarget(g: Digraph<string>, open: set<string>, v: string, d: string)
    requires Edge(g, v, d) && forall o | o in open :: Reach(g, o, v)
    ensures forall o | o in open :: Reach(g, o, d)
  {
    ReachEdge(g, v, d);
    forall o | o in open ensures Reach(g, o, d) {
      ReachTrans(g, o, v, d);
    }
  }

  /** A dependency outside the graph, or already in a component, changes nothing. */
  lemma ScanNothing(g: Digraph<string>, indices: map<string, nat>, stack: seq<string>, height: nat, v: string,
                    low: nat, seen: set<string>, d: string)
    requires Scanning(g, indices, stack, height, v, low, seen)
    requires Edge(g, v, d) ==> d in indices && d !in stack
    ensures Scanning(g, indices, stack, height, v, low, seen + {d})
  {
  }

  lemma NothingCrosses(g: Digraph<string>, indices: map<string, nat>, stack: seq<string>, height: nat, low: nat)
    requires |stack| <= height
    ensures CrossingAtLeast(g, indices, stack, height, height, low)
  {
  }

  lemma DependenciesOnly(all: PackageMap, g: Digraph<string>, pkg: Package)
    requires g == GraphOf(all) && pkg.short in all && all[pkg.short] == pkg
    ensures forall d | Edge(g, pkg.short, d) :: d in Elems(pkg.deps[..|pkg.deps|])
  {
    assert pkg.deps[..|pkg.deps|] == pkg.deps;
  }

  /** A finished recursive visit of `d` leaves the scan of `v` consistent, with the lower of both links. */
  lemma ChildKeeps(all: PackageMap, g: Digraph<string>, indices0: map<string, nat>, stack0: seq<Package>,
                   next: nat, indices: map<string, nat>, lowLinks: map<string, nat>, stack: seq<Package>,
                   stacked: set<string>, components: seq<seq<Package>>, open: set<string>,
                   height: nat, v: string, low: nat, seen: set<string>, d: string, childLow: nat)
    requires Consistent(all, g, next, indices, lowLinks, stack, stacked, components, open) && v in lowLinks
    requires Scanning(g, indices0, Shorts(stack0), height, v, low, seen) && Edge(g, v, d)
    requires |stack0| <= |stack| && stack[..|stack0|] == stack0
    requires forall n | n in indices0 :: n in indices && indices[n] == indices0[n]
    requires Names(stack0) <= indices0.Keys && d !in indices0 && d in indices && indices[v] < indices[d]
    requires CrossingAtLeast(g, indices, Shorts(stack), |stack0|, |stack0|, childLow)
    requires childLow < indices[d] ==> LowIsReached(g, indices, Shorts(stack), d, childLow)
    ensures Scanning(g, indices, Shorts(stack), height, v, Min(low, childLow), seen + {d})
    ensures Consistent(all, g, next, indices, lowLinks[v := Min(low, childLow)], stack, stacked, components, open)
  {
    ShortsSlices(stack, |stack0|);
    assert forall n | n in Shorts(stack0) :: n in Names(stack0);
    ScanChild(g, indices0, Shorts(stack0), indices, Shorts(stack), height, v, low, seen, d, childLow);
    LowLinksFree(all, g, next, indices, lowLinks, stack, stacked, components, open, v, Min(low, childLow));
  }

  class Search {
    const all: PackageMap
    ghost const g: Digraph<string>
    var nextIndex: nat
    var indices: map<string, nat>
    var lowLinks: map<string, nat>
    var stack: seq<Package>
    var stacked: set<string>
    var components: seq<seq<Package>>

    /** The invariant between steps; `open` names the visits in progress. */
    ghost predicate Valid(open: set<string>)
      reads this
    {
      g == GraphOf(all) && Consistent(all, g, nextIndex, indices, lowLinks, stack, stacked, components, open)
    }

    constructor (remaining: PackageMap)
      ensures all == remaining && Valid({})
      ensures fresh(this) && indices == map[] && components == []
    {
      all, g := remaining, GraphOf(remaining);
      nextIndex, indices, lowLinks, stack, stacked, components := 0, map[], map[], [], {}, [];
    }

    /** `pkg` gets the next index and goes on the stack. */
    method Enter(pkg: Package, ghost open: set<string>)
      requires Valid(open)
      requires pkg.short in all && all[pkg.short] == pkg && pkg.short !in indices
      requires forall o | o in open :: Reach(g, o, pkg.short)
      modifies this
      ensures Valid(open + {pkg.short})
      ensures nextIndex == old(nextIndex) + 1 && indices == old(indices)[pkg.short := old(nextIndex)]
      ensures lowLinks == old(lowLinks)[pkg.short := old(nextIndex)]
      ensures stack == old(stack) + [pkg] && components == old(components)
    {
      hide Consistent, GraphOf, Reach;
      EnterKeeps(all, g, nextIndex, indices, lowLinks, stack, stacked, components, open, pkg);
      nextIndex, indices, lowLinks := nextIndex + 1, indices[pkg.short := nextIndex], lowLinks[pkg.short := nextIndex];
      stack, stacked := stack + [pkg], stacked + {pkg.short};
    }

    /** Pop the stack down to and including `pkg`, as one component. */
    method PopComponent(pkg: Package, ghost open: set<string>, ghost height: nat)
      requires Valid(open + {pkg.short}) && height < |stack| && stack[height] == pkg
      requires open <= Names(stack[..height])
      requires forall o | o in open :: Reach(g, o, pkg.short)
      requires pkg.short in indices && CrossingAtLeast(g, indices, Shorts(stack), height, height, indices[pkg.short])
      requires forall w | Edge(g, pkg.short, w) :: w in indices
      modifies this`stack, this`stacked, this`components
      ensures Valid(open) && stack == old(stack)[..height]
      ensures |components| == |old(components)| + 1 && components[..|old(components)|] == old(components)
    {
      hide Consistent, CrossingAtLeast, Edge, Increasing, Popped, Names, Shorts, GraphOf, Reach;
      assert Increasing(indices, Shorts(stack)) && stacked == Names(stack) by {
        StackFacts(all, g, nextIndex, indices, lowLinks, stack, stacked, components, open + {pkg.short});
      }
      ghost var full, wasStacked := stack, stacked;
      PopName(indices, stack);
      var first := stack[|stack| - 1];
      stack := stack[..|stack| - 1];
      stacked := stacked - {first.short};
      var component := [first];
      var member := first;
      while member != pkg
        invariant height <= |stack| < |full| && stack == full[..|stack|]
        invariant |component| == |full| - |stack| && member == full[|stack|]
        invariant forall k | 0 <= k < |component| :: component[k] == full[|full| - 1 - k]
        invariant Increasing(indices, Shorts(stack)) && stacked == Names(stack)
        invariant components == old(components)
        decreases |stack|
      {
        PopName(indices, stack);
        var next := stack[|stack| - 1];
        stack := stack[..|stack| - 1];
        stacked := stacked - {next.short};
        component := component + [next];
        member := next;
      }
      OnlyPosition(all, g, nextIndex, indices, lowLinks, full, wasStacked, components, open + {pkg.short}, height,
          |stack|);
      PopKeeps(all, g, nextIndex, indices, lowLinks, full, wasStacked, components, open, height, component);
      components := components + [component];
    }

    /** Scan one dependency of `pkg`: visit it, or lower the link to its index, or ignore it. */
    method Follow(pkg: Package, dependency: string, ghost open: set<string>, ghost height: nat, ghost seen: set<string>)
      requires Valid(open) && pkg.short in all && all[pkg.short] == pkg && dependency in pkg.deps
      requires forall o | o in open :: Reach(g, o, pkg.short)
      requires pkg.short in lowLinks && height < |stack| && stack[height] == pkg
      requires Scanning(g, indices, Shorts(stack), height, pkg.short, lowLinks[pkg.short], seen)
      modifies this
      ensures Valid(open) && pkg.short in lowLinks
      ensures |old(stack)| <= |stack| && stack[..|old(stack)|] == old(stack)
      ensures |old(components)| <= |components| && components[..|old(components)|] == old(components)
      ensures KeepsEarlier(old(indices), indices, old(lowLinks) - {pkg.short}, lowLinks)
      ensures Scanning(g, indices, Shorts(stack), height, pkg.short, lowLinks[pkg.short], seen + {dependency})
      decreases all.Keys - indices.Keys, 1
    {
      hide Consistent, CrossingAtLeast, LowIsReached, Popped, GraphOf, Reach, Scanning;
      var v := pkg.short;
      StackFacts(all, g, nextIndex, indices, lowLinks, stack, stacked, components, open);
      EdgesOf(all, v, dependency);
      if dependency !in all {
        ScanNothing(g, indices, Shorts(stack), height, v, lowLinks[v], seen, dependency);
        return;
      }
      var target := all[dependency];
      if target.short !in indices {
        ghost var indices0, stack0 := indices, stack;
        OpenReachesTarget(g, open, v, dependency);
        Visit(target, open);
        ChildKeeps(all, g, indices0, stack0, nextIndex, indices, lowLinks, stack, stacked, components, open,
                   height, v, lowLinks[v], seen, dependency, lowLinks[dependency]);
        lowLinks := lowLinks[v := Min(lowLinks[v], lowLinks[target.short])];
      } else if target.short in stacked {
        ScanStacked(g, indices, Shorts(stack), height, v, lowLinks[v], seen, dependency);
        LowLinksFree(all, g, nextIndex, indices, lowLinks, stack, stacked, components, open, v, Min(lowLinks[v],
            indices[target.short]));
        lowLinks := lowLinks[v := Min(lowLinks[v], indices[target.short])];
      } else {
        ScanNothing(g, indices, Shorts(stack), height, v, lowLinks[v], seen, dependency);
      }
    }

    /** Scan every dependency of `pkg` in turn. */
    method FollowAll(pkg: Package, ghost open: set<string>, ghost height: nat)
      requires Valid(open) && pkg.short in all && all[pkg.short] == pkg
      requires forall o | o in open :: Reach(g, o, pkg.short)
      requires pkg.short in lowLinks && height < |stack| && stack[height] == pkg
      requires Scanning(g, indices, Shorts(stack), height, pkg.short, lowLinks[pkg.short], {})
      modifies this
      ensures Valid(open) && pkg.short in lowLinks
      ensures |old(stack)| <= |stack| && stack[..|old(stack)|] == old(stack)
      ensures |old(components)| <= |components| && components[..|old(components)|] == old(components)
      ensures KeepsEarlier(old(indices), indices, old(lowLinks) - {pkg.short}, lowLinks)
      ensures Scanning(g, indices, Shorts(stack), height, pkg.short, lowLinks[pkg.short], Elems(pkg.deps[..|pkg.deps|]))
      decreases all.Keys - indices.Keys, 2
    {
      hide Valid, CrossingAtLeast, LowIsReached, Popped, GraphOf, Reach, Scanning, Shorts;
      var v := pkg.short;
      assert Elems(pkg.deps[..0]) == {};
      assert KeepsEarlier(old(indices), indices, old(lowLinks) - {v}, lowLinks);
      hide KeepsEarlier, Elems;
      for k := 0 to |pkg.deps|
        invariant Valid(open) && v in lowLinks && old(indices).Keys <= indices.Keys
        invariant KeepsEarlier(old(indices), indices, old(lowLinks) - {v}, lowLinks)
        invariant |old(stack)| <= |stack| && stack[..|old(stack)|] == old(stack) && stack[height] == pkg
        invariant |old(components)| <= |components| && components[..|old(components)|] == old(components)
        invariant Scanning(g, indices, Shorts(stack), height, v, lowLinks[v], Elems(pkg.deps[..k]))
      {
        ElemsNext(pkg.deps, k);
        ghost var indices0, low0, stack0, components0 := indices, lowLinks, stack, components;
        Follow(pkg, pkg.deps[k], open, height, Elems(pkg.deps[..k]));
        KeepsEarlierStep(old(indices), indices0, indices, old(lowLinks), low0, lowLinks, v);
        PrefixOn(old(stack), stack0, stack);
        PrefixOn(old(components), components0, components);
        assert stack[height] == stack0[height];
      }
    }

    /** All dependencies scanned: pop a component when the low link is `pkg`'s own index. */
    method Finish(pkg: Package, ghost open: set<string>, ghost height: nat)
      requires Valid(open + {pkg.short}) && pkg.short in all && all[pkg.short] == pkg
      requires pkg.short in lowLinks && pkg.short in indices
      requires height < |stack| && stack[height] == pkg && open <= Names(stack[..height])
      requires forall o | o in open :: Reach(g, o, pkg.short)
      requires Scanning(g, indices, Shorts(stack), height, pkg.short, lowLinks[pkg.short], Elems(pkg.deps[..|pkg.deps|]))
      modifies this`stack, this`stacked, this`components
      ensures Valid(open)
      ensures height <= |stack| && stack[..height] == old(stack)[..height]
      ensures |old(components)| <= |components| && components[..|old(components)|] == old(components)
      ensures CrossingAtLeast(g, indices, Shorts(stack), height, height, lowLinks[pkg.short])
      ensures lowLinks[pkg.short] < indices[pkg.short] ==>
              LowIsReached(g, indices, Shorts(stack), pkg.short, lowLinks[pkg.short])
    {
      hide Consistent, CrossingAtLeast, LowIsReached, Popped, GraphOf, Reach, Scanning, Edge, Names;
      var v := pkg.short;
      DependenciesOnly(all, g, pkg);
      ScanComplete(g, indices, Shorts(stack), height, v, lowLinks[v], Elems(pkg.deps[..|pkg.deps|]));
      if lowLinks[v] != indices[v] {
        StayKeeps(all, g, nextIndex, indices, lowLinks, stack, stacked, components, open, v);
      } else {
        PopComponent(pkg, open, height);
        NothingCrosses(g, indices, Shorts(stack), height, lowLinks[v]);
      }
    }

    /** Index `pkg`, search everything it reaches, and pop its component once nothing above it links lower. */
    method Visit(pkg: Package, ghost open: set<string>)
      requires Valid(open)
      requires pkg.short in all && all[pkg.short] == pkg && pkg.short !in indices
      requires forall o | o in open :: Reach(g, o, pkg.short)
      modifies this
      ensures Valid(open)
      ensures pkg.short in indices && indices[pkg.short] == old(nextIndex)
      ensures KeepsEarlier(old(indices), indices, old(lowLinks), lowLinks)
      ensures |old(stack)| <= |stack| && stack[..|old(stack)|] == old(stack)
      ensures |old(components)| <= |components| && components[..|old(components)|] == old(components)
      ensures pkg.short in lowLinks
      ensures CrossingAtLeast(g, indices, Shorts(stack), |old(stack)|, |old(stack)|, lowLinks[pkg.short])
      ensures lowLinks[pkg.short] < indices[pkg.short] ==>
              LowIsReached(g, indices, Shorts(stack), pkg.short, lowLinks[pkg.short])
      decreases all.Keys - indices.Keys, 0
    {
      hide Consistent, CrossingAtLeast, LowIsReached, Popped, GraphOf, Reach, Scanning, Edge, Names, Shorts, Elems, KeepsEarlier;
      ghost var below, height, open' := stack, |stack|, open + {pkg.short};
      StackFacts(all, g, nextIndex, indices, lowLinks, stack, stacked, components, open);
      var v := pkg.short;
      Enter(pkg, open);
      ScanStart(g, indices, stack, height, pkg);
      ReachSelf(g, v);
      FollowAll(pkg, open', height);
      KeepsBefore(old(indices), indices, old(lowLinks), lowLinks, v, old(nextIndex));
      assert stack[..height] == below;
      Finish(pkg, open, height);
    }
  }

  lemma PrefixOn<T>(a: seq<T>, b: seq<T>, c: seq<T>)
    requires |a| <= |b| <= |c| && b[..|a|] == a && c[..|b|] == b
    ensures c[..|a|] == a
  {
    assert c[..|a|] == c[..|b|][..|a|];
  }

  /** The components partition the packages: every package is popped exactly once. */
  ghost predicate PartitionsInto(all: PackageMap, components: seq<seq<Package>>) {
    && (forall c | c in components :: ListsComponent(all, c))
    && Disjoint(components)
    && Popped(components) == all.Keys
  }

  /** Visit every package in map order; the popped components are all strongly connected components. */
  method AllComponents(remaining: PackageMap, order: seq<string>) returns (components: seq<seq<Package>>)
    requires Elems(order) == remaining.Keys
    ensures PartitionsInto(remaining, components)
  {
    hide Consistent, CrossingAtLeast, LowIsReached, GraphOf, Reach;
    var search := new Search(remaining);
    for k := 0 to |order|
      invariant search.Valid({}) && search.all == remaining && fresh(search)
      invariant forall i | 0 <= i < k :: order[i] in search.indices
    {
      var pkg := remaining[order[k]];
      if pkg.short !in search.indices {
        search.Visit(pkg, {});
      }
    }
    SearchOver(remaining, search.g, search.nextIndex, search.indices, search.lowLinks, search.stack, search.stacked,
               search.components);
    components := search.components;
  }

  /** With no visit in progress the stack is empty, so every indexed node is in a component. */
  lemma SearchOver(all: PackageMap, g: Digraph<string>, next: nat, indices: map<string, nat>,
                   lowLinks: map<string, nat>, stack: seq<Package>, stacked: set<string>,
                   components: seq<seq<Package>>)
    requires Consistent(all, g, next, indices, lowLinks, stack, stacked, components, {})
    ensures Popped(components) == indices.Keys <= all.Keys
    ensures (forall c | c in components :: ListsComponent(all, c)) && Disjoint(components)
  {
    assert forall u | u in Shorts(stack) :: ReachesOpen(g, indices, {}, u);
    assert |Shorts(stack)| == |stack|;
  }

  predicate StaysInside(remaining: PackageMap, component: seq<Package>, names: set<string>) {
    forall p | p in component :: forall dep | dep in p.deps :: dep !in remaining || dep in names
  }

  /** The source's filter: more than one member or a self-dependency, and no remaining dependency outside. */
  predicate IsCyclicSink(remaining: PackageMap, component: seq<Package>)
    requires component != []
  {
    var names := set p | p in component :: p.short;
    && (|component| > 1 || component[0].short in component[0].deps)
    && StaysInside(remaining, component, names)
  }

  /** The filter keeps exactly the cyclic components that no edge leaves. */
  lemma FilterIsExact(remaining: PackageMap, component: seq<Package>)
    requires ListsComponent(remaining, component) && component != []
    ensures IsCyclicSink(remaining, component) <==> IsSinkCycle(GraphOf(remaining), Names(component))
  {
    var g, names := GraphOf(remaining), Names(component);
    var first := component[0];
    assert (set p | p in component :: p.short) == names by {
      forall n ensures n in names <==> n in set p | p in component :: p.short {
        NamesIff(component, n);
      }
    }
    NamesIff(component, first.short);
    NamesSize(component);
    InnerEdgeIff(g, names, first.short);
    assert Edge(g, first.short, first.short) <==> first.short in first.deps;
    if StaysInside(remaining, component, names) {
      forall u, v | u in names && Edge(g, u, v) ensures v in names {
        NamesIff(component, u);
        var p :| p in component && p.short == u;
      }
    }
    if Closed(g, names) {
      forall p, dep | p in component && dep in p.deps && dep in remaining ensures dep in names {
        NamesIff(component, p.short);
        assert Edge(g, p.short, dep);
      }
    }
  }

  /** The cyclic sink components: exactly those, each listed once. */
  ghost predicate ListsSinkCycles(remaining: PackageMap, cycles: seq<seq<Package>>) {
    && (forall c | c in cycles ::
          ListedIn(c, remaining) && NoRepeats(c) && IsSinkCycle(GraphOf(remaining), Names(c)))
    && (forall s | IsSinkCycle(GraphOf(remaining), s) && s <= remaining.Keys :: exists c :: c in cycles && Names(c) == s)
    && Disjoint(cycles)
  }

  method FindSinkCycles(remaining: PackageMap, order: seq<string>) returns (cycles: seq<seq<Package>>)
    requires Elems(order) == remaining.Keys
    ensures ListsSinkCycles(remaining, cycles)
  {
    hide GraphOf, Reach, IsCyclicSink, IsComponent, Names, ListsComponent;
    var components := AllComponents(remaining, order);
    assert forall c | c in components :: c != [] by {
      forall c | c in components ensures c != [] {
        NonEmptyListing(remaining, c);
      }
    }
    cycles := [];
    for k := 0 to |components|
      invariant forall c | c in cycles :: c in components && c != [] && IsCyclicSink(remaining, c)
      invariant forall i | 0 <= i < k :: components[i] != [] && (IsCyclicSink(remaining, components[i]) ==>
                components[i] in cycles)
      invariant Disjoint(cycles) && Popped(cycles) <= Popped(components[..k])
    {
      assert components[k] in components;
      PrefixStep(components, k);
      PoppedAppend(cycles, components[k]);
      if IsCyclicSink(remaining, components[k]) {
        DisjointAppend(cycles, components[k]);
        cycles := cycles + [components[k]];
      }
    }
    KeptAreExact(remaining, components, cycles);
  }

  lemma PrefixStep(components: seq<seq<Package>>, k: nat)
    requires Disjoint(components) && k < |components|
    ensures Popped(components[..k + 1]) == Popped(components[..k]) + Names(components[k])
    ensures Names(components[k]) !! Popped(components[..k])
  {
    assert components[..k + 1] == components[..k] + [components[k]];
    PoppedAppend(components[..k], components[k]);
    forall n | n in Popped(components[..k]) ensures n !in Names(components[k]) {
      var i := PoppedFrom(components[..k], n);
    }
  }

  lemma KeptAreExact(remaining: PackageMap, components: seq<seq<Package>>, cycles: seq<seq<Package>>)
    requires PartitionsInto(remaining, components) && Disjoint(cycles)
    requires forall c | c in cycles :: c in components && c != [] && IsCyclicSink(remaining, c)
    requires forall c | c in components :: c != [] && (IsCyclicSink(remaining, c) ==> c in cycles)
    ensures ListsSinkCycles(remaining, cycles)
  {
    hide GraphOf, Reach, IsCyclicSink, IsComponent, Names;
    forall c | c in cycles ensures IsSinkCycle(GraphOf(remaining), Names(c)) {
      FilterIsExact(remaining, c);
    }
    forall s | IsSinkCycle(GraphOf(remaining), s) && s <= remaining.Keys ensures exists c ::
              c in cycles && Names(c) == s {
      var i := ComponentOf(remaining, components, s);
      assert components[i] in components;
      FilterIsExact(remaining, components[i]);
    }
  }

  lemma NonEmptyListing(all: PackageMap, c: seq<Package>)
    requires ListsComponent(all, c)
    ensures c != []
  {
    assert c == [] ==> Shorts(c) == [];
  }

  lemma ComponentOf(remaining: PackageMap, components: seq<seq<Package>>, s: set<string>) returns (i: nat)
    requires PartitionsInto(remaining, components)
    requires IsComponent(GraphOf(remaining), s) && s <= remaining.Keys
    ensures i < |components| && Names(components[i]) == s
  {
    var n :| n in s;
    i := PoppedFrom(components, n);
    assert components[i] in components;
    ComponentsOverlap(GraphOf(remaining), s, Names(components[i]), n);
  }
}
