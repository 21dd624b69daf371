/** Workspace packages and the dependency graph of a set of them. */
module Packages {
  import opened Reachability
  import opened StackSearch

  datatype Package = Package(short: string, name: string, group: string, deps: seq<string>)

  /** Packages keyed by short name, as every map of the source is. */
  type PackageMap = m: map<string, Package> | forall n | n in m :: m[n].short == n

  /** The dependency edges that stay inside a set of packages. */
  ghost function GraphOf(all: PackageMap): Digraph<string> {
    map n | n in all :: set d | d in all[n].deps && d in all
  }

  function Without(all: PackageMap, gone: set<string>): PackageMap {
    map n | n in all && n !in gone :: all[n]
  }

  ghost function Shorts(packages: seq<Package>): seq<string> {
    seq(|packages|, i requires 0 <= i < |packages| => packages[i].short)
  }

  ghost function Names(packages: seq<Package>): set<string> {
    Elems(Shorts(packages))
  }

  ghost predicate NoRepeats(packages: seq<Package>) {
    forall i, j | 0 <= i < j < |packages| :: packages[i].short != packages[j].short
  }

  /** Every listed package is the one the map holds under its name. */
  ghost predicate ListedIn(packages: seq<Package>, all: PackageMap) {
    forall p | p in packages :: p.short in all && all[p.short] == p
  }

  lemma ShortsAppend(a: seq<Package>, b: seq<Package>)
    ensures Shorts(a + b) == Shorts(a) + Shorts(b)
    ensures Names(a + b) == Names(a) + Names(b)
  {
    ElemsAppend(Shorts(a), Shorts(b));
    assert Shorts(a + b) == Shorts(a) + Shorts(b);
  }

  lemma NamesIff(packages: seq<Package>, n: string)
    ensures n in Names(packages) <==> exists p :: p in packages && p.short == n
  {
    if n in Names(packages) {
      var i :| 0 <= i < |packages| && Shorts(packages)[i] == n;
      assert packages[i] in packages;
    }
    if p :| p in packages && p.short == n {
      var i :| 0 <= i < |packages| && packages[i] == p;
      assert Shorts(packages)[i] == n;
    }
  }

  lemma NamesSize(packages: seq<Package>)
    requires NoRepeats(packages)
    ensures |Names(packages)| == |packages|
  {
    if packages != [] {
      var last := packages[|packages| - 1];
      var front := packages[..|packages| - 1];
      NamesSize(front);
      assert packages == front + [last];
      ShortsAppend(front, [last]);
      NamesIff(front, last.short);
      assert Names(packages) == Names(front) + {last.short} by {
        assert Shorts([last]) == [last.short];
      }
    }
  }
}
