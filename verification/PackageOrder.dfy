/** Dependency-first ordering of workspace packages, with cyclic sink components as the fallback layer. */
module PackageOrder {
  import opened Reachability
  import opened StackSearch
  import opened Packages
  import opened SinkCycles
  import opened Sorting
  import opened Results
  import opened Collation
  import opened Sequences

  const MAX_SAFE_INTEGER := 0x1F_FFFF_FFFF_FFFF
  const MAX_ARRAY_LENGTH := 0xFFFF_FFFF

  /** A group order is an array of the host, so its positions are below the rank of an unlisted group. */
  type GroupOrder = groups: seq<string> | |groups| <= MAX_ARRAY_LENGTH

  /** A caller's group order and the host's string collation. */
  datatype Ranking = Ranking(groupOrder: GroupOrder, collate: Collate)

  function IndexOf(groups: seq<string>, group: string): (k: int)
    ensures -1 <= k < |groups|
    ensures k == -1 <==> group !in groups
    ensures k >= 0 ==> groups[k] == group && group !in groups[..k]
  {
    if groups == [] then -1
    else if groups[0] == group then 0
    else
      var rest := IndexOf(groups[1..], group);
      if rest == -1 then -1
      else
        assert groups[..rest + 1] == [groups[0]] + groups[1..][..rest];
        rest + 1
  }

  function GroupRank(groups: seq<string>, group: string): int {
    var k := IndexOf(groups, group);
    if k == -1 then MAX_SAFE_INTEGER else k
  }

  function Compare(a: Package, b: Package, ranking: Ranking): int {
    var byRank := GroupRank(ranking.groupOrder, a.group) - GroupRank(ranking.groupOrder, b.group);
    if byRank != 0 then byRank
    else
      var byGroup := (ranking.collate)(a.group, b.group);
      if byGroup != 0 then byGroup else (ranking.collate)(a.short, b.short)
  }

  function ByRanking(ranking: Ranking): Comparator<Package> {
    (a, b) => Compare(a, b, ranking)
  }

  /** The comparator orders packages totally and separates any two with different short names. */
  lemma CompareIsTotal(a: Package, b: Package, c: Package, ranking: Ranking)
    requires IsCollation(ranking.collate)
    ensures Compare(a, b, ranking) == 0 <==> a.group == b.group && a.short == b.short
    ensures Compare(a, b, ranking) < 0 <==> Compare(b, a, ranking) > 0
    ensures Compare(a, b, ranking) <= 0 && Compare(b, c, ranking) <= 0 ==> Compare(a, c, ranking) <= 0
  {
    hide IsCollation;
    CollationAt(ranking.collate, a.group, b.group, c.group);
    CollationAt(ranking.collate, b.group, a.group, c.group);
    CollationAt(ranking.collate, b.group, c.group, a.group);
    CollationAt(ranking.collate, a.group, c.group, b.group);
    CollationAt(ranking.collate, a.short, b.short, c.short);
    CollationAt(ranking.collate, b.short, a.short, c.short);
  }

  /**
   * Where `a` stands relative to `b` in a layer: listed groups in their listed order, then unlisted ones
   * by collation, and inside one group by short name.
   */
  ghost predicate StandsBefore(a: Package, b: Package, ranking: Ranking) {
    var i, j := IndexOf(ranking.groupOrder, a.group), IndexOf(ranking.groupOrder, b.group);
    if a.group == b.group then (ranking.collate)(a.short, b.short) < 0
    else if i >= 0 && j >= 0 then i < j
    else if i == -1 && j == -1 then (ranking.collate)(a.group, b.group) < 0
    else j == -1
  }

  lemma CompareIsRanking(a: Package, b: Package, ranking: Ranking)
    requires IsCollation(ranking.collate)
    ensures Compare(a, b, ranking) < 0 <==> StandsBefore(a, b, ranking)
    ensures Compare(a, b, ranking) <= 0 <==> !StandsBefore(b, a, ranking)
  {
    hide IsCollation;
    CollationAt(ranking.collate, a.group, b.group, a.group);
    CollationAt(ranking.collate, a.short, b.short, a.short);
    CollationAt(ranking.collate, b.group, a.group, b.group);
    CollationAt(ranking.collate, b.short, a.short, b.short);
  }

  lemma RankingIsPreorder(ranking: Ranking)
    requires IsCollation(ranking.collate)
    ensures Preorder(ByRanking(ranking))
  {
    hide IsCollation, Compare;
    var cmp := ByRanking(ranking);
    forall a, b ensures cmp(a, b) <= 0 || cmp(b, a) <= 0 {
      CompareIsTotal(a, b, a, ranking);
    }
    forall a, b, c ensures cmp(a, b) <= 0 && cmp(b, c) <= 0 ==> cmp(a, c) <= 0 {
      CompareIsTotal(a, b, c, ranking);
    }
  }

  // ---------------------------------------------------------------- batches

  /** The batch lists exactly the packages named in `names`, in ranking order. */
  ghost predicate IsListing(all: PackageMap, batch: seq<Package>, names: set<string>, ranking: Ranking) {
    && ListedIn(batch, all)
    && NoRepeats(batch)
    && Names(batch) == names
    && forall i, j | 0 <= i < j < |batch| :: StandsBefore(batch[i], batch[j], ranking)
  }

  /** Packages all of whose dependencies are placed. */
  ghost function ReadyNames(remaining: PackageMap, placed: set<string>): set<string> {
    set n | n in remaining && forall d | d in remaining[n].deps :: d in placed
  }

  /** `names` is a sink cycle, and no sink cycle holds a package that precedes all of `batch`. */
  ghost predicate IsFirstSinkCycle(remaining: PackageMap, names: set<string>, batch: seq<Package>, ranking: Ranking) {
    && IsSinkCycle(GraphOf(remaining), names) && names <= remaining.Keys
    && batch != []
    && forall s, n | IsSinkCycle(GraphOf(remaining), s) && s <= remaining.Keys && n in s ::
         !StandsBefore(remaining[n], batch[0], ranking)
  }

  /** The batch placed next: every ready package, or else the sink cycle holding the least package. */
  ghost predicate IsNextBatch(all: PackageMap, placed: set<string>, batch: seq<Package>, ranking: Ranking) {
    var remaining := Without(all, placed);
    var ready := ReadyNames(remaining, placed);
    && batch != []
    && if ready != {} then
         IsListing(remaining, batch, ready, ranking)
       else
         exists s :: IsFirstSinkCycle(remaining, s, batch, ranking) && IsListing(remaining, batch, s, ranking)
  }

  ghost function Flatten(batches: seq<seq<Package>>): seq<Package> {
    if batches == [] then [] else Flatten(batches[..|batches| - 1]) + batches[|batches| - 1]
  }

  /** Every batch is the next one after those before it. */
  ghost predicate IsRun(all: PackageMap, batches: seq<seq<Package>>, ranking: Ranking) {
    forall k | 0 <= k < |batches| :: IsNextBatch(all, Names(Flatten(batches[..k])), batches[k], ranking)
  }

  ghost predicate IsCompleteRun(all: PackageMap, batches: seq<seq<Package>>, ranking: Ranking) {
    IsRun(all, batches, ranking) && Names(Flatten(batches)) == all.Keys
  }

  /** `out` is the order of `all`: the batches of a complete run, one after the other. */
  ghost predicate IsOrderOf(all: PackageMap, out: seq<Package>, ranking: Ranking) {
    exists batches :: IsCompleteRun(all, batches, ranking) && out == Flatten(batches)
  }

  // ---------------------------------------------------------------- the order is unique

  lemma ListingUnique(all: PackageMap, a: seq<Package>, b: seq<Package>, names: set<string>, ranking: Ranking)
    requires IsCollation(ranking.collate)
    requires IsListing(all, a, names, ranking) && IsListing(all, b, names, ranking)
    ensures a == b
  {
    hide IsCollation, Compare;
    ListingStrict(all, a, names, ranking);
    ListingStrict(all, b, names, ranking);
    forall p ensures p in a <==> p in b {
      ListingHas(all, a, names, ranking, p);
      ListingHas(all, b, names, ranking, p);
    }
    StrictlySortedUnique(a, b, ByRanking(ranking));
  }

  lemma ListingStrict(all: PackageMap, a: seq<Package>, names: set<string>, ranking: Ranking)
    requires IsCollation(ranking.collate) && IsListing(all, a, names, ranking)
    ensures Ascending(a, ByRanking(ranking))
  {
    hide IsCollation, Compare, StandsBefore;
    forall i, j | 0 <= i < j < |a|
      ensures ByRanking(ranking)(a[i], a[j]) < 0 && ByRanking(ranking)(a[j], a[i]) > 0
    {
      CompareIsRanking(a[i], a[j], ranking);
      CompareIsTotal(a[i], a[j], a[i], ranking);
    }
  }

  lemma ListingHas(all: PackageMap, a: seq<Package>, names: set<string>, ranking: Ranking, p: Package)
    requires IsListing(all, a, names, ranking)
    ensures p in a <==> p.short in names && p.short in all && all[p.short] == p
  {
    NamesIff(a, p.short);
  }

  /** A sorted listing starts with its least package. */
  lemma HeadIsLeast(all: PackageMap, a: seq<Package>, names: set<string>, ranking: Ranking, n: string)
    requires IsCollation(ranking.collate) && IsListing(all, a, names, ranking) && n in names
    ensures a != [] && n in all && Compare(a[0], all[n], ranking) <= 0
  {
    hide IsCollation, Compare, StandsBefore;
    NamesIff(a, n);
    var p :| p in a && p.short == n;
    var i :| 0 <= i < |a| && a[i] == p;
    CompareIsTotal(a[0], a[0], a[0], ranking);
    CompareIsRanking(a[0], a[i], ranking);
  }

  lemma NextBatchUnique(all: PackageMap, placed: set<string>, a: seq<Package>, b: seq<Package>, ranking: Ranking)
    requires IsCollation(ranking.collate)
    requires IsNextBatch(all, placed, a, ranking) && IsNextBatch(all, placed, b, ranking)
    ensures a == b
  {
    hide IsCollation, Compare, StandsBefore, GraphOf, IsSinkCycle;
    var remaining := Without(all, placed);
    var ready := ReadyNames(remaining, placed);
    if ready != {} {
      ListingUnique(remaining, a, b, ready, ranking);
    } else {
      var s :| IsFirstSinkCycle(remaining, s, a, ranking) && IsListing(remaining, a, s, ranking);
      var t :| IsFirstSinkCycle(remaining, t, b, ranking) && IsListing(remaining, b, t, ranking);
      ListingHas(remaining, a, s, ranking, a[0]);
      ListingHas(remaining, b, t, ranking, b[0]);
      CompareIsRanking(a[0], b[0], ranking);
      CompareIsRanking(b[0], a[0], ranking);
      CompareIsTotal(a[0], b[0], a[0], ranking);
      SinkCyclesOverlap(GraphOf(remaining), s, t, a[0].short);
      ListingUnique(remaining, a, b, s, ranking);
    }
  }

  lemma SinkCyclesOverlap(g: Digraph<string>, s: set<string>, t: set<string>, n: string)
    requires IsSinkCycle(g, s) && IsSinkCycle(g, t) && n in s && n in t
    ensures s == t
  {
    ComponentsOverlap(g, s, t, n);
  }

  lemma RunsAgree(all: PackageMap, a: seq<seq<Package>>, b: seq<seq<Package>>, ranking: Ranking, k: nat)
    requires IsCollation(ranking.collate) && IsRun(all, a, ranking) && IsRun(all, b, ranking)
    requires k <= |a| && k <= |b|
    ensures a[..k] == b[..k]
  {
    hide IsCollation, Compare, IsNextBatch;
    if k > 0 {
      RunsAgree(all, a, b, ranking, k - 1);
      NextBatchUnique(all, Names(Flatten(a[..k - 1])), a[k - 1], b[k - 1], ranking);
      assert a[..k] == a[..k - 1] + [a[k - 1]] && b[..k] == b[..k - 1] + [b[k - 1]];
    }
  }

  /** A complete run admits no further batch. */
  lemma CompleteIsMaximal(all: PackageMap, a: seq<seq<Package>>, b: seq<seq<Package>>, ranking: Ranking)
    requires IsCollation(ranking.collate) && IsCompleteRun(all, a, ranking) && IsRun(all, b, ranking)
    ensures |b| <= |a|
  {
    hide IsCollation, Compare;
    if |b| > |a| {
      RunsAgree(all, a, b, ranking, |a|);
      assert a[..|a|] == a;
      BatchIsFresh(all, all.Keys, b[|a|], ranking);
      assert false;
    }
  }

  lemma BatchIsFresh(all: PackageMap, placed: set<string>, batch: seq<Package>, ranking: Ranking)
    requires IsNextBatch(all, placed, batch, ranking)
    ensures ListedIn(batch, all) && NoRepeats(batch) && Names(batch) !! placed
    ensures Names(batch) != {} && Names(batch) <= all.Keys
  {
    NamesIff(batch, batch[0].short);
    forall n | n in Names(batch) ensures n in all && n !in placed {
      NamesIff(batch, n);
    }
  }

  lemma OrderUnique(all: PackageMap, a: seq<Package>, b: seq<Package>, ranking: Ranking)
    requires IsCollation(ranking.collate) && IsOrderOf(all, a, ranking) && IsOrderOf(all, b, ranking)
    ensures a == b
  {
    hide IsCollation, Compare, IsRun;
    var ra :| IsCompleteRun(all, ra, ranking) && a == Flatten(ra);
    var rb :| IsCompleteRun(all, rb, ranking) && b == Flatten(rb);
    CompleteIsMaximal(all, ra, rb, ranking);
    CompleteIsMaximal(all, rb, ra, ranking);
    RunsAgree(all, ra, rb, ranking, |ra|);
    assert ra == ra[..|ra|] == rb[..|ra|] == rb;
  }

  // ---------------------------------------------------------------- what the order guarantees

  /**
   * Inside a layer, a listed group of lower position stands first, a listed group stands before an
   * unlisted one, and inside one group the lesser short name stands first.
   */
  lemma LayerOrder(all: PackageMap, batches: seq<seq<Package>>, ranking: Ranking, k: nat, i: nat, j: nat)
    requires IsCollation(ranking.collate) && IsRun(all, batches, ranking)
    requires k < |batches| && i < |batches[k]| && j < |batches[k]|
    ensures var (p, q) := (batches[k][i], batches[k][j]);
            var (m, n) := (IndexOf(ranking.groupOrder, p.group), IndexOf(ranking.groupOrder, q.group));
            && (0 <= m < n || (0 <= m && n == -1) ==> i < j)
            && (m == n == -1 && (ranking.collate)(p.group, q.group) < 0 ==> i < j)
            && (p.group == q.group && (ranking.collate)(p.short, q.short) < 0 ==> i < j)
  {
    hide IsCollation;
    var batch := batches[k];
    assert IsNextBatch(all, Names(Flatten(batches[..k])), batch, ranking);
    var p, q := batch[i], batch[j];
    CollationAt(ranking.collate, p.group, q.group, p.group);
    CollationAt(ranking.collate, p.short, q.short, p.short);
    if j < i {
      assert StandsBefore(q, p, ranking);
    }
  }

  lemma ReachInWhole(all: PackageMap, gone: set<string>, u: string, v: string)
    requires Reach(GraphOf(Without(all, gone)), u, v)
    ensures Reach(GraphOf(all), u, v)
  {
    var g, h := GraphOf(Without(all, gone)), GraphOf(all);
    var p :| PathBetween(g, p, u, v);
    forall i | 0 <= i < |p| - 1 ensures Edge(h, p[i], p[i + 1]) {
      assert Edge(g, p[i], p[i + 1]);
    }
    assert PathBetween(h, p, u, v);
  }

  /** A dependency of a batch member is placed earlier or lies on a common cycle with it. */
  lemma BatchDependency(all: PackageMap, placed: set<string>, batch: seq<Package>, ranking: Ranking, p: Package,
                        d: string)
    requires IsNextBatch(all, placed, batch, ranking) && p in batch && d in p.deps && d in all
    ensures d in placed || Mutual(GraphOf(all), p.short, d)
  {
    var remaining := Without(all, placed);
    NamesIff(batch, p.short);
    if ReadyNames(remaining, placed) == {} && d !in placed {
      var s :| IsFirstSinkCycle(remaining, s, batch, ranking) && IsListing(remaining, batch, s, ranking);
      assert Edge(GraphOf(remaining), p.short, d);
      assert Mutual(GraphOf(remaining), p.short, d);
      ReachInWhole(all, placed, p.short, d);
      ReachInWhole(all, placed, d, p.short);
    }
  }

  lemma RunIsListed(all: PackageMap, batches: seq<seq<Package>>, ranking: Ranking)
    requires IsRun(all, batches, ranking)
    ensures ListedIn(Flatten(batches), all) && NoRepeats(Flatten(batches)) && Names(Flatten(batches)) <= all.Keys
  {
    hide IsNextBatch;
    if batches != [] {
      var k := |batches| - 1;
      var front := Flatten(batches[..k]);
      RunPrefix(all, batches, ranking, k);
      RunIsListed(all, batches[..k], ranking);
      BatchIsFresh(all, Names(front), batches[k], ranking);
      ShortsAppend(front, batches[k]);
      forall i, j | 0 <= i < |front| && 0 <= j < |batches[k]| ensures front[i].short != batches[k][j].short {
        NamesIff(front, front[i].short);
        NamesIff(batches[k], batches[k][j].short);
      }
    } else {
      NoNames();
    }
  }

  lemma NoNames()
    ensures Names([]) == {}
  {
    assert Shorts([]) == [];
  }

  lemma RunPrefix(all: PackageMap, batches: seq<seq<Package>>, ranking: Ranking, k: nat)
    requires IsRun(all, batches, ranking) && k <= |batches|
    ensures IsRun(all, batches[..k], ranking)
  {
    hide IsNextBatch;
    forall j | 0 <= j < k ensures IsNextBatch(all, Names(Flatten(batches[..k][..j])), batches[..k][j], ranking) {
      assert batches[..k][..j] == batches[..j];
    }
  }

  lemma RunDependency(all: PackageMap, batches: seq<seq<Package>>, ranking: Ranking, i: nat, d: string)
    requires IsRun(all, batches, ranking) && i < |Flatten(batches)|
    requires d in Flatten(batches)[i].deps && d in all
    ensures d in Names(Flatten(batches)[..i]) || Mutual(GraphOf(all), Flatten(batches)[i].short, d)
  {
    hide IsNextBatch, GraphOf;
    var k := |batches| - 1;
    var out, front := Flatten(batches), Flatten(batches[..k]);
    RunPrefix(all, batches, ranking, k);
    if i < |front| {
      RunDependency(all, batches[..k], ranking, i, d);
      assert out[..i] == front[..i];
    } else {
      BatchDependency(all, Names(front), batches[k], ranking, out[i], d);
      ShortsAppend(front, out[|front|..i]);
      assert out[..i] == front + out[|front|..i];
    }
  }

  /** The order is a permutation of the packages, and every dependency stands earlier unless the two reach each other. */
  lemma OrderContract(all: PackageMap, out: seq<Package>, ranking: Ranking)
    requires IsOrderOf(all, out, ranking)
    ensures ListedIn(out, all) && NoRepeats(out) && Names(out) == all.Keys
    ensures forall i, d | 0 <= i < |out| && d in out[i].deps && d in all ::
              d in Names(out[..i]) || Mutual(GraphOf(all), out[i].short, d)
  {
    hide IsRun;
    var batches :| IsCompleteRun(all, batches, ranking) && out == Flatten(batches);
    RunIsListed(all, batches, ranking);
    forall i, d | 0 <= i < |out| && d in out[i].deps && d in all
      ensures d in Names(out[..i]) || Mutual(GraphOf(all), out[i].short, d)
    {
      RunDependency(all, batches, ranking, i, d);
    }
  }

  // ---------------------------------------------------------------- maps built from package lists

  /** A map built from a list: a repeated short name keeps its last package. */
  function ByName(packages: seq<Package>): (all: PackageMap)
    ensures forall n | n in all :: all[n] in packages
    ensures forall p | p in packages :: p.short in all
  {
    if packages == [] then map[]
    else
      var last := packages[|packages| - 1];
      ByName(packages[..|packages| - 1])[last.short := last]
  }

  /** The map's iteration order: names by first occurrence. */
  function KeyOrder(packages: seq<Package>): (order: seq<string>)
    ensures Elems(order) == ByName(packages).Keys
  {
    if packages == [] then []
    else
      var last := packages[|packages| - 1];
      var front := KeyOrder(packages[..|packages| - 1]);
      if last.short in front then front else front + [last.short]
  }

  lemma {:induction false} ByNameDistinct(packages: seq<Package>, p: Package)
    requires NoRepeats(packages) && p in packages
    ensures ByName(packages)[p.short] == p
  {
    var k := |packages| - 1;
    var i :| 0 <= i < |packages| && packages[i] == p;
    if i < k {
      assert packages[..k][i] == p;
      ByNameDistinct(packages[..k], p);
    }
  }

  /** Of packages that share a short name, the map keeps the last. */
  lemma {:induction false} LastIsKept(packages: seq<Package>, i: nat)
    requires i < |packages| && forall j | i < j < |packages| :: packages[j].short != packages[i].short
    ensures ByName(packages)[packages[i].short] == packages[i]
  {
    if i < |packages| - 1 {
      LastIsKept(packages[..|packages| - 1], i);
    }
  }

  /** The map does not depend on the order of a list of distinctly named packages. */
  lemma ByNamePermuted(a: seq<Package>, b: seq<Package>)
    requires multiset(a) == multiset(b) && NoRepeats(a) && NoRepeats(b)
    ensures ByName(a) == ByName(b)
  {
    SameElements(a, b);
    var ma, mb := ByName(a), ByName(b);
    forall n ensures n in ma <==> n in mb {
      if n in ma {
        assert ma[n] in b;
      }
      if n in mb {
        assert mb[n] in a;
      }
    }
    forall n | n in ma ensures ma[n] == mb[n] {
      ByNameDistinct(b, ma[n]);
    }
  }

  lemma NoRepeatsPermuted(a: seq<Package>, b: seq<Package>)
    requires multiset(a) == multiset(b) && NoRepeats(a)
    ensures NoRepeats(b)
  {
    forall i, j | 0 <= i < j < |b| ensures b[i].short != b[j].short {
      SameElements(a, b);
      assert b[i] in b && b[j] in b;
      var k :| 0 <= k < |a| && a[k] == b[i];
      var m :| 0 <= m < |a| && a[m] == b[j];
      if k == m {
        TwiceInMultiset(b, i, j);
        OnceInMultiset(a, k);
        assert false;
      }
    }
  }

  lemma {:induction false} NoRepeatsMultiset(a: seq<Package>, b: seq<Package>)
    requires NoRepeats(a) && NoRepeats(b) && forall p :: p in a <==> p in b
    ensures multiset(a) == multiset(b)
  {
    forall p ensures multiset(a)[p] == multiset(b)[p] {
      if p in a {
        var i :| 0 <= i < |a| && a[i] == p;
        var j :| 0 <= j < |b| && b[j] == p;
        OnceInMultiset(a, i);
        OnceInMultiset(b, j);
      }
    }
  }

  /** The order is a permutation of the listed packages exactly when no short name is listed twice. */
  lemma OrderPermutesIff(packages: seq<Package>, out: seq<Package>, ranking: Ranking)
    requires IsOrderOf(ByName(packages), out, ranking)
    ensures multiset(out) == multiset(packages) <==> NoRepeats(packages)
  {
    hide IsOrderOf, ByName, Names;
    OrderContract(ByName(packages), out, ranking);
    if NoRepeats(packages) {
      forall p ensures p in out <==> p in packages {
        if p in packages {
          ByNameDistinct(packages, p);
          NamesIff(out, p.short);
        }
      }
      NoRepeatsMultiset(out, packages);
    } else if multiset(out) == multiset(packages) {
      NoRepeatsPermuted(out, packages);
    }
  }

  // ---------------------------------------------------------------- the ordering loop

  datatype GraphError = MissingPeer(package: string, dependency: string) | CouldNotOrder

  predicate Known(deps: seq<string>, all: PackageMap) {
    forall d | d in deps :: d in all
  }

  /** `d` names no package, and every dependency before it does. */
  ghost predicate IsFirstUnknown(deps: seq<string>, all: PackageMap, d: string) {
    d !in all && exists j :: 0 <= j < |deps| && deps[j] == d && Known(deps[..j], all)
  }

  /** The first dependency, in list order, that names no package. */
  function FirstMissing(packages: seq<Package>, all: PackageMap): (r: Option<GraphError>)
    ensures r.None? <==> forall p, d | p in packages && d in p.deps :: d in all
    ensures r.Some? ==> r.value.MissingPeer?
  {
    if packages == [] then None
    else
      var here := FirstUnknown(packages[0].deps, all);
      if here.Some? then Some(MissingPeer(packages[0].name, here.value))
      else FirstMissing(packages[1..], all)
  }

  function FirstUnknown(deps: seq<string>, all: PackageMap): (r: Option<string>)
    ensures r.None? <==> Known(deps, all)
    ensures r.Some? ==> IsFirstUnknown(deps, all, r.value)
  {
    if deps == [] then None
    else if deps[0] !in all then
      assert Known(deps[..0], all);
      Some(deps[0])
    else
      assert forall k | 0 <= k < |deps| - 1 :: deps[..k + 1] == [deps[0]] + deps[1..][..k];
      FirstUnknown(deps[1..], all)
  }

  /** The error names the first unknown dependency of the package at `i`, and no earlier package has one. */
  ghost predicate ReportedAt(packages: seq<Package>, all: PackageMap, e: GraphError, i: nat) {
    && i < |packages| && e.MissingPeer? && e.package == packages[i].name
    && IsFirstUnknown(packages[i].deps, all, e.dependency)
    && forall k | 0 <= k < i :: Known(packages[k].deps, all)
  }

  /** The reported peer is the first unknown one of the first package that has one. */
  lemma {:induction false} ReportsFirstMissing(packages: seq<Package>, all: PackageMap)
    requires FirstMissing(packages, all).Some?
    ensures exists i: nat :: ReportedAt(packages, all, FirstMissing(packages, all).value, i)
  {
    hide IsFirstUnknown, Known;
    var e := FirstMissing(packages, all).value;
    if FirstUnknown(packages[0].deps, all).Some? {
      assert ReportedAt(packages, all, e, 0);
    } else {
      ReportsFirstMissing(packages[1..], all);
      var i: nat :| ReportedAt(packages[1..], all, e, i);
      forall k | 0 <= k < i + 1 ensures Known(packages[k].deps, all) {
        assert k > 0 ==> packages[k] == packages[1..][k - 1];
      }
      assert ReportedAt(packages, all, e, i + 1);
    }
  }

  /** The map's values in iteration order. */
  function Values(remaining: PackageMap, order: seq<string>): seq<Package> {
    if order == [] then []
    else if order[0] in remaining then [remaining[order[0]]] + Values(remaining, order[1..])
    else Values(remaining, order[1..])
  }

  function Keys(remaining: PackageMap, order: seq<string>): (keys: seq<string>)
    ensures forall n :: n in keys <==> n in order && n in remaining
  {
    if order == [] then []
    else if order[0] in remaining then [order[0]] + Keys(remaining, order[1..])
    else Keys(remaining, order[1..])
  }

  predicate IsReady(p: Package, placed: set<string>) {
    forall d | d in p.deps :: d in placed
  }

  function Ready(packages: seq<Package>, placed: set<string>): (ready: seq<Package>)
    ensures forall p :: p in ready <==> p in packages && IsReady(p, placed)
  {
    if packages == [] then []
    else if IsReady(packages[0], placed) then [packages[0]] + Ready(packages[1..], placed)
    else Ready(packages[1..], placed)
  }

  lemma {:induction false} KeyOrderDistinct(packages: seq<Package>)
    ensures Distinct(KeyOrder(packages))
  {
    if packages != [] {
      KeyOrderDistinct(packages[..|packages| - 1]);
    }
  }

  lemma {:induction false} ValuesListing(remaining: PackageMap, order: seq<string>)
    requires Distinct(order)
    ensures ListedIn(Values(remaining, order), remaining) && NoRepeats(Values(remaining, order))
    ensures forall n :: (exists p :: p in Values(remaining, order) && p.short == n) <==> n in order && n in remaining
  {
    if order != [] {
      var rest := Values(remaining, order[1..]);
      ValuesListing(remaining, order[1..]);
      assert forall n :: n in order <==> n == order[0] || n in order[1..];
      assert forall p | p in rest :: p.short in order[1..];
      forall n | n in order && n in remaining ensures exists p :: p in Values(remaining, order) && p.short == n {
        if n == order[0] {
          assert remaining[n] in Values(remaining, order);
        } else {
          var p :| p in rest && p.short == n;
          assert p in Values(remaining, order);
        }
      }
      assert NoRepeats(Values(remaining, order));
    }
  }

  lemma ReadyNoRepeats(packages: seq<Package>, placed: set<string>)
    requires NoRepeats(packages)
    ensures NoRepeats(Ready(packages, placed))
  {
    if packages != [] {
      ReadyNoRepeats(packages[1..], placed);
      forall p | p in packages[1..] ensures p.short != packages[0].short {
        var i :| 0 <= i < |packages[1..]| && packages[1..][i] == p;
        assert packages[i + 1] == p;
      }
    }
  }

  lemma ReadyListing(remaining: PackageMap, order: seq<string>, placed: set<string>)
    requires Distinct(order) && remaining.Keys <= Elems(order)
    ensures var ready := Ready(Values(remaining, order), placed);
            ListedIn(ready, remaining) && NoRepeats(ready) && Names(ready) == ReadyNames(remaining, placed)
  {
    var values := Values(remaining, order);
    var ready := Ready(values, placed);
    ValuesListing(remaining, order);
    ReadyNoRepeats(values, placed);
    forall n ensures n in Names(ready) <==> n in ReadyNames(remaining, placed) {
      NamesIff(ready, n);
      if n in ReadyNames(remaining, placed) {
        var p :| p in values && p.short == n;
        assert p in ready;
      }
    }
  }

  lemma SortedListing(all: PackageMap, packages: seq<Package>, ranking: Ranking)
    requires IsCollation(ranking.collate) && ListedIn(packages, all) && NoRepeats(packages)
    ensures IsListing(all, Sort(packages, ByRanking(ranking)), Names(packages), ranking)
  {
    hide IsCollation, Preorder, Sort, Compare, StandsBefore, Names;
    var sorted := Sort(packages, ByRanking(ranking));
    RankingIsPreorder(ranking);
    SortSorts(packages, ByRanking(ranking));
    SameElements(packages, sorted);
    NoRepeatsPermuted(packages, sorted);
    forall i, j | 0 <= i < j < |sorted| ensures StandsBefore(sorted[i], sorted[j], ranking) {
      assert ByRanking(ranking)(sorted[i], sorted[j]) <= 0;
      CompareIsTotal(sorted[i], sorted[j], sorted[i], ranking);
      CompareIsRanking(sorted[i], sorted[j], ranking);
    }
    forall n ensures n in Names(sorted) <==> n in Names(packages) {
      NamesIff(sorted, n);
      NamesIff(packages, n);
    }
  }

  type Component = c: seq<Package> | c != [] witness [Package("", "", "", [])]

  function ByHead(ranking: Ranking): Comparator<Component> {
    (a: Component, b: Component) => Compare(a[0], b[0], ranking)
  }

  function SortCycle(cycle: seq<Package>, ranking: Ranking): Component
    requires cycle != []
  {
    SortKeepsNonEmpty(cycle, ranking);
    Sort(cycle, ByRanking(ranking))
  }

  function SortEach(cycles: seq<seq<Package>>, ranking: Ranking): seq<Component>
    requires forall i | 0 <= i < |cycles| :: cycles[i] != []
  {
    seq(|cycles|, i requires 0 <= i < |cycles| => SortCycle(cycles[i], ranking))
  }

  lemma SortKeepsNonEmpty(c: seq<Package>, ranking: Ranking)
    requires c != []
    ensures Sort(c, ByRanking(ranking)) != []
  {
    SameElements(c, Sort(c, ByRanking(ranking)));
  }

  lemma HeadIsPreorder(ranking: Ranking)
    requires IsCollation(ranking.collate)
    ensures Preorder(ByHead(ranking))
  {
    hide IsCollation, Compare;
    var cmp := ByHead(ranking);
    forall a: Component, b: Component ensures cmp(a, b) <= 0 || cmp(b, a) <= 0 {
      CompareIsTotal(a[0], b[0], a[0], ranking);
    }
    forall a: Component, b: Component, c: Component ensures cmp(a, b) <= 0 && cmp(b, c) <= 0 ==> cmp(a, c) <= 0 {
      CompareIsTotal(a[0], b[0], c[0], ranking);
    }
  }

  /** The cycle chosen by sorting all cycles by their heads is the one holding the least package of any. */
  lemma CycleBatch(remaining: PackageMap, cycles: seq<seq<Package>>, ranking: Ranking, batch: Component)
    requires IsCollation(ranking.collate) && ListsSinkCycles(remaining, cycles)
    requires forall i | 0 <= i < |cycles| :: cycles[i] != []
    requires cycles != [] && var sorted := Sort(SortEach(cycles, ranking), ByHead(ranking));
              sorted != [] && batch == sorted[0]
    ensures exists s :: IsFirstSinkCycle(remaining, s, batch, ranking) && IsListing(remaining, batch, s, ranking)
  {
    hide IsCollation, Preorder, Compare, StandsBefore, IsSinkCycle, GraphOf, Sort;
    var each := SortEach(cycles, ranking);
    var sorted := Sort(each, ByHead(ranking));
    HeadIsPreorder(ranking);
    SortSorts(each, ByHead(ranking));
    SameElements(each, sorted);
    assert batch in sorted;
    var i :| 0 <= i < |each| && each[i] == batch;
    assert cycles[i] in cycles;
    SortedListing(remaining, cycles[i], ranking);
    forall s, n | IsSinkCycle(GraphOf(remaining), s) && s <= remaining.Keys && n in s
      ensures !StandsBefore(remaining[n], batch[0], ranking)
    {
      var c :| c in cycles && Names(c) == s;
      var j :| 0 <= j < |cycles| && cycles[j] == c;
      SortedListing(remaining, c, ranking);
      HeadIsLeast(remaining, each[j], s, ranking, n);
      assert each[j] in sorted;
      FirstIsLeast(sorted, each[j], ranking);
      CompareIsTotal(batch[0], each[j][0], remaining[n], ranking);
      CompareIsRanking(batch[0], remaining[n], ranking);
    }
    assert IsFirstSinkCycle(remaining, Names(cycles[i]), batch, ranking);
  }

  lemma FirstIsLeast(sorted: seq<Component>, c: Component, ranking: Ranking)
    requires IsCollation(ranking.collate) && SortedBy(sorted, ByHead(ranking)) && c in sorted
    ensures Compare(sorted[0][0], c[0], ranking) <= 0
  {
    var i :| 0 <= i < |sorted| && sorted[i] == c;
    CompareIsTotal(c[0], c[0], c[0], ranking);
    assert i > 0 ==> ByHead(ranking)(sorted[0], sorted[i]) <= 0;
  }

  /** When nothing is ready, a cyclic sink component exists: the fallback never comes up empty. */
  lemma FallbackExists(all: PackageMap, placed: set<string>, cycles: seq<seq<Package>>)
    requires forall n, d | n in all && d in all[n].deps :: d in all
    requires Without(all, placed) != map[] && ReadyNames(Without(all, placed), placed) == {}
    requires ListsSinkCycles(Without(all, placed), cycles)
    ensures cycles != []
  {
    hide Reach, IsComponent, ListedIn, Names, NoRepeats, Disjoint;
    var remaining := Without(all, placed);
    var g := GraphOf(remaining);
    forall n | n in g ensures g[n] != {} {
      assert n !in ReadyNames(remaining, placed);
      var d :| d in remaining[n].deps && d !in placed;
      assert d in g[n];
    }
    assert g.Keys == remaining.Keys;
    assert Closed(g, g.Keys);
    var s := SinkCycleExists(g);
  }

  ghost predicate DependenciesKnown(all: PackageMap) {
    forall n, d | n in all && d in all[n].deps :: d in all
  }

  /** The layer placed next: the ready packages in ranking order, or else the first cyclic sink component. */
  method NextBatch(ghost all: PackageMap, remaining: PackageMap, order: seq<string>, placed: set<string>,
                   ranking: Ranking)
    returns (r: Result<seq<Package>, GraphError>)
    requires IsCollation(ranking.collate) && DependenciesKnown(all)
    requires remaining == Without(all, placed) != map[]
    requires Distinct(order) && remaining.Keys <= Elems(order)
    ensures r.Success? && IsNextBatch(all, placed, r.value, ranking)
  {
    hide IsCollation, Distinct, Names, NoRepeats, Sort, Values, Ready, IsSinkCycle, GraphOf, Disjoint;
    var unsorted := Ready(Values(remaining, order), placed);
    var ready := Sort(unsorted, ByRanking(ranking));
    ReadyListing(remaining, order, placed);
    SortedListing(remaining, unsorted, ranking);
    if ready != [] {
      ListingHas(remaining, ready, Names(unsorted), ranking, ready[0]);
      return Success(ready);
    }
    NoNames();
    assert ReadyNames(remaining, placed) == {};
    var cycles := FindSinkCycles(remaining, Keys(remaining, order));
    if cycles == [] {
      FallbackExists(all, placed, cycles);
      return Failure(CouldNotOrder);
    }
    CyclesNonEmpty(remaining, cycles);
    var sorted := Sort(SortEach(cycles, ranking), ByHead(ranking));
    SameElements(SortEach(cycles, ranking), sorted);
    CycleBatch(remaining, cycles, ranking, sorted[0]);
    r := Success(sorted[0]);
  }

  lemma CyclesNonEmpty(remaining: PackageMap, cycles: seq<seq<Package>>)
    requires ListsSinkCycles(remaining, cycles)
    ensures forall i | 0 <= i < |cycles| :: cycles[i] != []
  {
    hide Reach;
    forall i | 0 <= i < |cycles| ensures cycles[i] != [] {
      assert cycles[i] in cycles;
      NonEmptyListing(remaining, cycles[i]);
    }
  }

  lemma ExtendRun(all: PackageMap, batches: seq<seq<Package>>, batch: seq<Package>, ranking: Ranking)
    requires IsRun(all, batches, ranking)
    requires IsNextBatch(all, Names(Flatten(batches)), batch, ranking)
    ensures IsRun(all, batches + [batch], ranking)
    ensures Flatten(batches + [batch]) == Flatten(batches) + batch
    ensures Names(Flatten(batches) + batch) == Names(Flatten(batches)) + Names(batch)
    ensures Names(batch) == set p | p in batch :: p.short
    ensures Names(batch) != {} && Names(batch) <= all.Keys - Names(Flatten(batches))
    ensures all.Keys - (Names(Flatten(batches)) + Names(batch)) < all.Keys - Names(Flatten(batches))
  {
    hide IsNextBatch, Names;
    var more := batches + [batch];
    assert more[..|batches|] == batches;
    forall k | 0 <= k < |more| ensures IsNextBatch(all, Names(Flatten(more[..k])), more[k], ranking) {
      if k < |batches| {
        assert more[..k] == batches[..k];
      }
    }
    ShortsAppend(Flatten(batches), batch);
    BatchIsFresh(all, Names(Flatten(batches)), batch, ranking);
    forall n ensures n in Names(batch) <==> n in set p | p in batch :: p.short {
      NamesIff(batch, n);
    }
  }

  /**
   * Order packages after their dependencies, batch by batch. An unknown dependency is the only error:
   * the branch for an unorderable graph is never taken.
   */
  method TopoSort(packages: seq<Package>, ranking: Ranking) returns (r: Result<seq<Package>, GraphError>)
    requires IsCollation(ranking.collate)
    ensures FirstMissing(packages, ByName(packages)) == None ==>
              r.Success? && IsOrderOf(ByName(packages), r.value, ranking)
    ensures FirstMissing(packages, ByName(packages)) != None ==>
              r == Failure(FirstMissing(packages, ByName(packages)).value)
  {
    hide IsCollation, IsNextBatch, IsRun, Distinct, Names, Flatten, ByName, KeyOrder;
    var all := ByName(packages);
    var missing := FirstMissing(packages, all);
    if missing.Some? {
      return Failure(missing.value);
    }
    assert DependenciesKnown(all);
    hide DependenciesKnown, FirstMissing, Without;
    var order := KeyOrder(packages);
    KeyOrderDistinct(packages);
    var remaining, placed, out := all, {}, [];
    ghost var batches: seq<seq<Package>> := [];
    NoNames();
    EmptyRun(all, ranking);
    while remaining != map[]
      invariant out == Flatten(batches) && placed == Names(out) && remaining == Without(all, placed)
      invariant IsRun(all, batches, ranking)
      decreases all.Keys - placed
    {
      var batch := NextBatch(all, remaining, order, placed, ranking);
      if batch.Failure? {
        return Failure(CouldNotOrder);
      }
      ExtendRun(all, batches, batch.value, ranking);
      batches := batches + [batch.value];
      var names := set p | p in batch.value :: p.short;
      out := out + batch.value;
      WithoutTwice(all, placed, names);
      placed := placed + names;
      remaining := Without(remaining, names);
    }
    RunIsListed(all, batches, ranking);
    NothingLeft(all, placed);
    r := Success(out);
  }

  lemma WithoutTwice(all: PackageMap, a: set<string>, b: set<string>)
    ensures Without(Without(all, a), b) == Without(all, a + b)
  {
  }

  lemma EmptyRun(all: PackageMap, ranking: Ranking)
    ensures IsRun(all, [], ranking) && Flatten([]) == [] && Without(all, {}) == all
  {
  }

  lemma NothingLeft(all: PackageMap, placed: set<string>)
    requires Without(all, placed) == map[]
    ensures all.Keys <= placed
  {
    forall n | n in all ensures n in placed {
      assert n !in Without(all, placed);
    }
  }

  /** The result does not depend on the order in which distinctly named packages are listed. */
  lemma InputOrderIrrelevant(a: seq<Package>, b: seq<Package>, outA: seq<Package>, outB: seq<Package>, ranking: Ranking)
    requires IsCollation(ranking.collate)
    requires multiset(a) == multiset(b) && NoRepeats(a)
    requires IsOrderOf(ByName(a), outA, ranking) && IsOrderOf(ByName(b), outB, ranking)
    ensures outA == outB
  {
    NoRepeatsPermuted(a, b);
    ByNamePermuted(a, b);
    OrderUnique(ByName(a), outA, outB, ranking);
  }
}
