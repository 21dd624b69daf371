/** Folding the schema key paths of composed packages into the schema that composes them. */
module ComposedKeys {
  import opened Reachability
  import opened Sequences

  /** A catalogued package: its own schema keys and the packages its schema composes. */
  datatype Entry = Entry(keys: seq<string>, composes: seq<string>)

  type Catalog = map<string, Entry>

  /** Composition among catalogued packages. */
  ghost function CompositionGraph(c: Catalog): Digraph<string> {
    map n | n in c :: set d | d in c[n].composes && d in c
  }

  /** The keys of the listed packages, in order. */
  ghost function KeysOf(c: Catalog, order: seq<string>): seq<string>
    requires forall n | n in order :: n in c
  {
    if order == [] then [] else KeysOf(c, order[..|order| - 1]) + c[order[|order| - 1]].keys
  }

  /** A package composes one that is not catalogued. */
  ghost predicate Dangles(c: Catalog, n: string, d: string) {
    n in c && d in c[n].composes && d !in c
  }

  /** What a visit that listed `order` leaves behind: its packages are new, reached, and lead only to seen ones. */
  ghost predicate Listed(c: Catalog, from: string, before: set<string>, after: set<string>, order: seq<string>) {
    && after == before + (set n | n in order) && after <= c.Keys
    && Distinct(order) && (forall n | n in order :: n !in before && Reach(CompositionGraph(c), from, n))
  }

  /** The listed packages, but for `open`, compose only seen or uncatalogued packages. */
  ghost predicate LeadsToSeen(c: Catalog, seen: set<string>, order: seq<string>, open: set<string>) {
    forall n, d | n in order && n !in open && n in c && d in c[n].composes :: d in seen || d !in c
  }

  /** The reports name exactly the uncatalogued packages composed by the listed ones, but for `open`. */
  ghost predicate Reported(c: Catalog, before: seq<string>, after: seq<string>, order: seq<string>, open: set<string>) {
    && before <= after
    && (forall d | d in after[|before|..] :: exists n :: n in order && Dangles(c, n, d))
    && (forall n, d | n in order && n !in open && Dangles(c, n, d) :: d in after)
  }

  lemma {:induction false} KeysAppend(c: Catalog, a: seq<string>, b: seq<string>)
    requires forall n | n in a + b :: n in c
    ensures (forall n | n in a :: n in c) && (forall n | n in b :: n in c)
    ensures KeysOf(c, a + b) == KeysOf(c, a) + KeysOf(c, b)
  {
    assert forall n | n in a :: n in a + b;
    assert forall n | n in b :: n in a + b;
    if b == [] {
      assert a + b == a;
    } else {
      var k := |b| - 1;
      assert (a + b)[..|a| + k] == a + b[..k];
      KeysAppend(c, a, b[..k]);
    }
  }

  /** A visit of a composed package extends the listing of the one that composes it. */
  lemma ListMore(c: Catalog, from: string, d: string, before: set<string>, middle: set<string>, after: set<string>,
                 order: seq<string>, more: seq<string>)
    requires Listed(c, from, before, middle, order) && Listed(c, d, middle, after, more)
    requires Edge(CompositionGraph(c), from, d)
    ensures Listed(c, from, before, after, order + more)
  {
    forall n | n in more ensures Reach(CompositionGraph(c), from, n) {
      ReachEdge(CompositionGraph(c), from, d);
      ReachTrans(CompositionGraph(c), from, d, n);
    }
    hide Reach;
    forall i, j | 0 <= i < |order| && 0 <= j < |more| ensures order[i] != more[j] {
      assert order[i] in middle && more[j] in more;
    }
    forall n ensures n in order + more <==> n in order || n in more {
    }
  }

  /** The visit starts with its own package alone. */
  lemma VisitStarts(c: Catalog, pkg: string, before: set<string>, violations: seq<string>)
    requires pkg in c && before <= c.Keys && pkg !in before
    ensures Listed(c, pkg, before, before + {pkg}, [pkg]) && KeysOf(c, [pkg]) == c[pkg].keys
    ensures LeadsToSeen(c, before + {pkg}, [pkg], {pkg}) && Reported(c, violations, violations, [pkg], {pkg})
  {
    ReachSelf(CompositionGraph(c), pkg);
    assert [pkg][..0] == [];
  }

  /** Once everything it composes is seen or reported, the visit is over. */
  lemma VisitEnds(c: Catalog, pkg: string, seen: set<string>, before: seq<string>, after: seq<string>, order: seq<string>)
    requires pkg in c && LeadsToSeen(c, seen, order, {pkg}) && Reported(c, before, after, order, {pkg})
    requires forall d | d in c[pkg].composes :: d in seen || d !in c
    requires forall d | d in c[pkg].composes && d !in c :: d in after
    ensures LeadsToSeen(c, seen, order, {}) && Reported(c, before, after, order, {})
  {
  }

  lemma ReportOne(c: Catalog, before: seq<string>, middle: seq<string>, order: seq<string>, pkg: string, d: string)
    requires Reported(c, before, middle, order, {pkg}) && pkg in order && Dangles(c, pkg, d)
    ensures Reported(c, before, middle + [d], order, {pkg})
  {
    assert (middle + [d])[|before|..] == middle[|before|..] + [d];
  }

  class Folder {
    const c: Catalog
    var seen: set<string>
    var violations: seq<string>

    constructor (c: Catalog)
      ensures this.c == c && seen == {} && violations == []
    {
      this.c := c;
      seen, violations := {}, [];
    }

    /** The keys of a package and, once each, of the packages it composes that were not seen yet. */
    method Fold(pkg: string) returns (keys: seq<string>, ghost order: seq<string>)
      requires pkg in c && seen <= c.Keys
      modifies this
      ensures pkg in seen && Listed(c, pkg, old(seen), seen, order)
      ensures (forall n | n in order :: n in c) && keys == KeysOf(c, order)
      ensures pkg !in old(seen) ==> order != [] && order[0] == pkg
      ensures LeadsToSeen(c, seen, order, {})
      ensures Reported(c, old(violations), violations, order, {})
      decreases c.Keys - seen
    {
      if pkg in seen {
        return [], [];
      }
      VisitStarts(c, pkg, seen, violations);
      hide Reach, CompositionGraph, LeadsToSeen, Reported, KeysOf, Distinct;
      seen := seen + {pkg};
      keys, order := c[pkg].keys, [pkg];
      var composes := c[pkg].composes;
      for i := 0 to |composes|
        invariant pkg in seen && Listed(c, pkg, old(seen), seen, order)
        invariant (forall n | n in order :: n in c) && keys == KeysOf(c, order)
        invariant order != [] && order[0] == pkg
        invariant LeadsToSeen(c, seen, order, {pkg}) && forall j | 0 <= j < i :: composes[j] in seen || composes[j] !in c
        invariant Reported(c, old(violations), violations, order, {pkg})
        invariant forall j | 0 <= j < i && composes[j] !in c :: composes[j] in violations
      {
        var composed := composes[i];
        if composed !in c {
          ReportOne(c, old(violations), violations, order, pkg, composed);
          violations := violations + [composed];
        } else {
          Composes(c, pkg, composed);
          ghost var seen0, violations0 := seen, violations;
          var more, tail := Fold(composed);
          ListMore(c, pkg, composed, old(seen), seen0, seen, order, tail);
          ReportMore(c, old(violations), violations0, violations, order, tail, pkg);
          KeysAppend(c, order, tail);
          LeadMore(c, seen0, seen, order, tail, pkg);
          keys, order := keys + more, order + tail;
        }
      }
      VisitEnds(c, pkg, seen, old(violations), violations, order);
    }
  }

  lemma Composes(c: Catalog, n: string, d: string)
    requires n in c && d in c && d in c[n].composes
    ensures Edge(CompositionGraph(c), n, d)
  {
  }

  lemma LeadMore(c: Catalog, middle: set<string>, after: set<string>, order: seq<string>, more: seq<string>, from: string)
    requires LeadsToSeen(c, middle, order, {from}) && LeadsToSeen(c, after, more, {}) && middle <= after
    ensures LeadsToSeen(c, after, order + more, {from})
  {
  }

  lemma ReportMore(c: Catalog, before: seq<string>, middle: seq<string>, after: seq<string>, order: seq<string>,
                   more: seq<string>, from: string)
    requires Reported(c, before, middle, order, {from}) && Reported(c, middle, after, more, {})
    ensures Reported(c, before, after, order + more, {from})
  {
    forall d | d in after[|before|..] ensures exists n :: n in order + more && Dangles(c, n, d) {
      var k :| |before| <= k < |after| && after[k] == d;
      if k < |middle| {
        assert middle[k] == d && d in middle[|before|..];
        var n :| n in order && Dangles(c, n, d);
        assert n in order + more;
      } else {
        assert d in after[|middle|..];
        var n :| n in more && Dangles(c, n, d);
        assert n in order + more;
      }
    }
  }

  /**
   * The folded keys are those of every package reachable through composition, each package once, the
   * composing one first; a report is made exactly when one of them composes an uncatalogued package.
   */
  method FoldComposed(c: Catalog, root: string) returns (keys: seq<string>, violations: seq<string>)
    requires root in c
    ensures exists order: seq<string> ::
              && order != [] && order[0] == root && Distinct(order)
              && (forall n :: n in order <==> n in c && Reach(CompositionGraph(c), root, n))
              && (forall n | n in order :: n in c) && keys == KeysOf(c, order)
    ensures forall d :: d in violations <==> exists n :: Reach(CompositionGraph(c), root, n) && Dangles(c, n, d)
  {
    hide Reach;
    var folder := new Folder(c);
    ghost var order;
    keys, order := folder.Fold(root);
    violations := folder.violations;
    var g := CompositionGraph(c);
    assert violations[0..] == violations;
    assert Closed(g, folder.seen);
    forall n | n in c && Reach(g, root, n) ensures n in order {
      ReachStaysIn(g, root, n, folder.seen);
    }
    forall n, d | Reach(g, root, n) && Dangles(c, n, d) ensures d in violations {
      assert n in order;
    }
  }
}
