/**
 * When the lookup never ends. The first thing a lookup does at an alias is to follow the chain of
 * types that are evaluated first; a cycle of such chains that prepends a step never meets a seen key.
 */
module ConfigEndless {
  import opened Results
  import opened ConfigTypes
  import opened ConfigTermination
  import opened Sets

  /** A declaration entered, and the steps prepended on the way. */
  datatype Hop = Hop(id: DeclId, pushed: nat)

  /**
   * The declaration that the type's first-evaluated chain enters: through parentheses, `readonly`,
   * first parts, wrapper arguments and indexed targets, using up no step.
   */
  function Head(w: World, file: string, node: TypeNode): (r: Option<Hop>)
    ensures r.Some? ==> r.value.id in w.decls
  {
    match node
    case Parenthesized(inner) => Head(w, file, inner)
    case Readonly(inner) => Head(w, file, inner)
    case Intersection(first, _) => Head(w, file, first)
    case Union(first, _) => Head(w, file, first)
    case IndexedAccess(target, key) =>
      var h := if key.Some? then Head(w, file, target) else None;
      if h.Some? then Some(Hop(h.value.id, h.value.pushed + 1)) else None
    case Reference(name, qualified, args) =>
      if name in PASSTHROUGH_WRAPPERS && args != [] then Head(w, file, args[0])
      else if (name in ARRAY_NAMES && args != []) || qualified || Resolve(w, file, name).None? then None
      else Some(Hop(Resolve(w, file, name).value, 0))
    case _ => None
  }

  function HeadOf(w: World, id: DeclId): (r: Option<Hop>)
    requires id in w.decls
    ensures r.Some? ==> r.value.id in w.decls && w.decls[id].Alias?
  {
    if w.decls[id].Alias? then Head(w, w.decls[id].file, w.decls[id].body) else None
  }

  /** Where `k` heads in a row lead, and the steps prepended together. */
  function Hops(w: World, id: DeclId, k: nat): (r: Option<Hop>)
    requires id in w.decls
    ensures r.Some? ==> r.value.id in w.decls
    decreases k
  {
    if k == 0 then Some(Hop(id, 0))
    else
      var h := HeadOf(w, id);
      var t := if h.Some? then Hops(w, h.value.id, k - 1) else None;
      if t.Some? then Some(Hop(t.value.id, h.value.pushed + t.value.pushed)) else None
  }

  lemma {:induction false} HopsSplit(w: World, id: DeclId, j: nat, k: nat)
    requires id in w.decls
    ensures var h := Hops(w, id, j);
            var t := if h.Some? then Hops(w, h.value.id, k) else None;
            Hops(w, id, j + k) == if t.Some? then Some(Hop(t.value.id, h.value.pushed + t.value.pushed)) else None
    decreases j
  {
    if j > 0 && HeadOf(w, id).Some? {
      HopsSplit(w, HeadOf(w, id).value.id, j - 1, k);
    }
  }

  /** After `k` heads the chain is back with a longer path. */
  predicate ReturnsLonger(w: World, id: DeclId, k: nat)
    requires id in w.decls
  {
    Hops(w, id, k).Some? && Hops(w, id, k).value.id == id && Hops(w, id, k).value.pushed > 0
  }

  /** The chain of heads leads into a cycle that prepends a step. */
  ghost predicate HeadGrows(w: World, id: DeclId)
    requires id in w.decls
  {
    exists j: nat, k: nat :: Hops(w, id, j).Some? && ReturnsLonger(w, Hops(w, id, j).value.id, k)
  }

  ghost predicate Prepends(w: World, id: DeclId, b: nat)
    requires id in w.decls
  {
    exists j: nat :: Hops(w, id, j).Some? && Hops(w, id, j).value.pushed >= b
  }

  /** The chain of heads goes on for ever and prepends ever more steps. */
  ghost predicate Unbounded(w: World, id: DeclId)
    requires id in w.decls
  {
    forall b: nat :: Prepends(w, id, b)
  }

  lemma {:induction false} Rounds(w: World, id: DeclId, k: nat, b: nat) returns (j: nat)
    requires id in w.decls && ReturnsLonger(w, id, k)
    ensures Hops(w, id, j).Some? && Hops(w, id, j).value.id == id && Hops(w, id, j).value.pushed >= b
  {
    j := 0;
    if b > 0 {
      var i := Rounds(w, id, k, b - 1);
      HopsSplit(w, id, i, k);
      j := i + k;
    }
  }

  lemma GrowsUnbounded(w: World, id: DeclId)
    requires id in w.decls && HeadGrows(w, id)
    ensures Unbounded(w, id)
  {
    var j: nat, k: nat :| Hops(w, id, j).Some? && ReturnsLonger(w, Hops(w, id, j).value.id, k);
    forall b: nat ensures Prepends(w, id, b) {
      var i := Rounds(w, Hops(w, id, j).value.id, k, b);
      HopsSplit(w, id, j, i);
    }
  }

  lemma UnboundedStep(w: World, id: DeclId)
    requires id in w.decls && Unbounded(w, id)
    ensures HeadOf(w, id).Some? && Unbounded(w, HeadOf(w, id).value.id)
  {
    assert Prepends(w, id, 1);
    var i: nat :| Hops(w, id, i).Some? && Hops(w, id, i).value.pushed >= 1;
    assert i > 0;
    var h := HeadOf(w, id).value;
    forall b: nat ensures Prepends(w, h.id, b) {
      assert Prepends(w, id, b + h.pushed + 1);
      var j: nat :| Hops(w, id, j).Some? && Hops(w, id, j).value.pushed >= b + h.pushed + 1;
      assert j > 0 && Hops(w, h.id, j - 1).value.pushed >= b;
    }
  }

  /** A cycle that prepends nothing never prepends anything. */
  lemma {:induction false} FlatStaysFlat(w: World, id: DeclId, j: nat, n: nat)
    requires id in w.decls && j > 0 && Hops(w, id, j) == Some(Hop(id, 0))
    ensures Hops(w, id, n).Some? ==> Hops(w, id, n).value.pushed == 0
    decreases n
  {
    if n < j {
      HopsSplit(w, id, n, j - n);
    } else {
      HopsSplit(w, id, j, n - j);
      FlatStaysFlat(w, id, j, n - j);
    }
  }

  lemma NoFlatReturn(w: World, id: DeclId, j: nat)
    requires id in w.decls && Unbounded(w, id) && j > 0 && Hops(w, id, j).Some? && Hops(w, id, j).value.id == id
    ensures Hops(w, id, j).value.pushed > 0
  {
    assert Prepends(w, id, 1);
    var n: nat :| Hops(w, id, n).Some? && Hops(w, id, n).value.pushed >= 1;
    if Hops(w, id, j).value.pushed == 0 {
      FlatStaysFlat(w, id, j, n);
    }
  }

  // ---------------------------------------------------------------- the lookup follows the heads

  /** A type's lookup is stuck when every lookup its head can start is. */
  lemma {:induction false} NodeStuck(w: World, file: string, node: TypeNode, steps: seq<Step>, seen: set<Key>, fuel: nat)
    requires steps != [] && Head(w, file, node).Some?
    requires var h := Head(w, file, node).value;
             forall longer: seq<Step> | |longer| == |steps| + h.pushed :: LookupDecl(w, h.id, longer, seen, fuel) == Stuck
    ensures LookupNode(w, file, node, steps, seen, fuel) == Stuck
    decreases node
  {
    match node
    case Parenthesized(inner) => NodeStuck(w, file, inner, steps, seen, fuel);
    case Readonly(inner) => NodeStuck(w, file, inner, steps, seen, fuel);
    case Intersection(first, _) => NodeStuck(w, file, first, steps, seen, fuel);
    case Union(first, _) => NodeStuck(w, file, first, steps, seen, fuel);
    case IndexedAccess(target, key) => NodeStuck(w, file, target, [Member(key.value)] + steps, seen, fuel);
    case Reference(name, qualified, args) =>
      if name in PASSTHROUGH_WRAPPERS && args != [] {
        NodeStuck(w, file, args[0], steps, seen, fuel);
      }
  }

  /** None of the keys the chain of heads is going to create has been seen. */
  ghost predicate Ahead(w: World, id: DeclId, length: nat, seen: set<Key>)
    requires id in w.decls
  {
    forall j: nat | Hops(w, id, j).Some? :: (Hops(w, id, j).value.id, length + Hops(w, id, j).value.pushed) !in seen
  }

  lemma AheadStep(w: World, id: DeclId, length: nat, seen: set<Key>)
    requires id in w.decls && Unbounded(w, id) && HeadOf(w, id).Some? && Ahead(w, id, length, seen)
    ensures var h := HeadOf(w, id).value; Ahead(w, h.id, length + h.pushed, seen + {(id, length)})
  {
    var h := HeadOf(w, id).value;
    forall j: nat | Hops(w, h.id, j).Some?
      ensures (Hops(w, h.id, j).value.id, length + h.pushed + Hops(w, h.id, j).value.pushed) !in seen + {(id, length)}
    {
      assert Hops(w, id, j + 1) == Some(Hop(Hops(w, h.id, j).value.id, h.pushed + Hops(w, h.id, j).value.pushed));
      if Hops(w, id, j + 1).value.id == id {
        NoFlatReturn(w, id, j + 1);
      }
    }
  }

  lemma {:induction false} EndlessFrom(w: World, id: DeclId, steps: seq<Step>, seen: set<Key>, fuel: nat)
    requires id in w.decls && steps != [] && Unbounded(w, id) && Ahead(w, id, |steps|, seen)
    ensures LookupDecl(w, id, steps, seen, fuel) == Stuck
    decreases fuel
  {
    hide Unbounded, Ahead;
    assert (id, |steps|) !in seen by { AheadOfNow(w, id, |steps|, seen); }
    UnboundedStep(w, id);
    if fuel > 0 {
      var h, seen' := HeadOf(w, id).value, seen + {(id, |steps|)};
      AheadStep(w, id, |steps|, seen);
      forall longer: seq<Step> | |longer| == |steps| + h.pushed
        ensures LookupDecl(w, h.id, longer, seen', fuel - 1) == Stuck
      {
        EndlessFrom(w, h.id, longer, seen', fuel - 1);
      }
      NodeStuck(w, w.decls[id].file, w.decls[id].body, steps, seen', fuel - 1);
    }
  }

  lemma AheadOfNow(w: World, id: DeclId, length: nat, seen: set<Key>)
    requires id in w.decls && Ahead(w, id, length, seen)
    ensures (id, length) !in seen
  {
    assert Hops(w, id, 0) == Some(Hop(id, 0));
  }

  /** Where the heads lead into a cycle that prepends a step, the lookup of a non-empty path never ends. */
  lemma GrowingHeadsNeverEnd(w: World, id: DeclId, steps: seq<Step>, seen: set<Key>, fuel: nat)
    requires id in w.decls && steps != [] && HeadGrows(w, id)
    requires forall k: Key | k in seen :: k.1 < |steps|
    ensures LookupDecl(w, id, steps, seen, fuel) == Stuck
  {
    GrowsUnbounded(w, id);
    EndlessFrom(w, id, steps, seen, fuel);
  }

  /** The two conditions exclude each other. */
  lemma TameHeadsDoNotGrow(w: World, g: Growth, id: DeclId)
    requires id in w.decls && Tame(w, g)
    ensures !HeadGrows(w, id)
  {
    assert id in g;
    hide Tame, HeadGrows, AllKeys;
    if HeadGrows(w, id) {
      var steps, fuel := [Element], |AllKeys(w, 1 + g[id])|;
      LookupTerminates(w, g, id, steps, fuel);
      GrowingHeadsNeverEnd(w, id, steps, {}, fuel);
    }
  }

  /** An alias of its own indexed member: every entry is one step longer than the last. */
  const ENDLESS := World(
    map["A" := Alias("f", IndexedAccess(Reference("A", false, []), Some("x")))],
    map[("f", "A") := "A"])

  /** On this world no amount of fuel ends the lookup. */
  lemma EndlessLookup(steps: seq<Step>, seen: set<Key>, fuel: nat)
    requires steps != [] && forall k: Key | k in seen :: k.1 < |steps|
    ensures LookupDecl(ENDLESS, "A", steps, seen, fuel) == Stuck
  {
    assert Resolve(ENDLESS, "f", "A") == Some("A");
    assert Head(ENDLESS, "f", Reference("A", false, [])) == Some(Hop("A", 0));
    assert HeadOf(ENDLESS, "A") == Some(Hop("A", 1));
    assert Hops(ENDLESS, "A", 0) == Some(Hop("A", 0));
    assert Hops(ENDLESS, "A", 1) == Some(Hop("A", 1));
    assert ReturnsLonger(ENDLESS, "A", 1);
    GrowingHeadsNeverEnd(ENDLESS, "A", steps, seen, fuel);
  }
}
