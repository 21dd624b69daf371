/** Discovery of benchmark candidates: the packages installed with the target, by a growing queue. */
module BenchmarkCandidates {
  import opened Results
  import opened Sorting
  import opened Sequences

  const TARGET_PACKAGE := "@deepseek-ai/dsh"
  const CORDIS := "@deepseek-ai/cordis"

  /** A published manifest's key lists; `optionalPeers` are the peers whose metadata marks them optional. */
  datatype Manifest = Manifest(dependencies: seq<string>, optionalDependencies: seq<string>,
                               peerDependencies: seq<string>, optionalPeers: set<string>)

  /** The registry, the workspace version of each package, the released packages and those under policy. */
  datatype Registry = Registry(index: map<string, map<string, Manifest>>, versions: map<string, string>,
                               released: set<string>, policy: set<string>)

  function ManifestOf(r: Registry, name: string): (m: Option<Manifest>)
    ensures m.Some? <==> name in r.versions && name in r.index && r.versions[name] in r.index[name]
    ensures m.Some? ==> r.index[name][r.versions[name]] == m.value
  {
    if name in r.versions && name in r.index && r.versions[name] in r.index[name]
    then Some(r.index[name][r.versions[name]])
    else None
  }

  function Excluding(names: seq<string>, gone: set<string>): (kept: seq<string>)
    ensures forall n :: n in kept <==> n in names && n !in gone
  {
    if names == [] then []
    else if names[0] in gone then Excluding(names[1..], gone)
    else [names[0]] + Excluding(names[1..], gone)
  }

  /** The keys of the spread object: dependencies, optional ones, and peers not marked optional, each once. */
  function Installed(m: Manifest): (names: seq<string>)
    ensures forall n :: n in names <==>
              n in m.dependencies || n in m.optionalDependencies || (n in m.peerDependencies && n !in m.optionalPeers)
  {
    var direct := m.dependencies + Excluding(m.optionalDependencies, (set n | n in m.dependencies));
    direct + Excluding(Excluding(m.peerDependencies, m.optionalPeers), (set n | n in direct))
  }

  /** The UTF-16 code units of a character: itself, or a surrogate pair beyond the basic plane. */
  function Units(c: char): (units: seq<nat>)
    ensures |units| >= 1
  {
    var n := c as int;
    if n < 0x10000 then [n] else [0xD800 + (n - 0x10000) / 0x400, 0xDC00 + (n - 0x10000) % 0x400]
  }

  function UnitsOf(s: string): seq<nat> {
    if s == "" then [] else Units(s[0]) + UnitsOf(s[1..])
  }

  function CompareUnits(a: seq<nat>, b: seq<nat>): int {
    if a == b then 0
    else if a == [] then -1
    else if b == [] then 1
    else if a[0] != b[0] then a[0] - b[0]
    else CompareUnits(a[1..], b[1..])
  }

  /** UTF-16 code unit order, as `sort()` uses it. */
  function CodeUnits(a: string, b: string): int {
    CompareUnits(UnitsOf(a), UnitsOf(b))
  }

  /** At the first difference `a` has the smaller unit, or `a` ends first. */
  ghost predicate UnitsBefore(a: seq<nat>, b: seq<nat>) {
    exists k :: 0 <= k <= |a| && k < |b| && a[..k] == b[..k] && (k < |a| ==> a[k] < b[k])
  }

  lemma {:induction false} ComparesUnits(a: seq<nat>, b: seq<nat>)
    ensures CompareUnits(a, b) < 0 <==> UnitsBefore(a, b)
  {
    if a != [] && b != [] {
      ComparesUnits(a[1..], b[1..]);
      if a[0] == b[0] {
        BeforeTail(a, b);
        assert a == [a[0]] + a[1..] && b == [b[0]] + b[1..];
      } else if a[0] < b[0] {
        assert a[..0] == b[..0];
      } else {
        forall k | 0 < k <= |a| && k < |b| ensures a[..k] != b[..k] {
          assert a[..k][0] == a[0] && b[..k][0] == b[0];
        }
      }
    } else if b != [] {
      assert a[..0] == b[..0];
    }
  }

  lemma BeforeTail(a: seq<nat>, b: seq<nat>)
    requires a != [] && b != [] && a[0] == b[0]
    ensures UnitsBefore(a, b) <==> UnitsBefore(a[1..], b[1..])
  {
    if k :| 0 <= k <= |a| && k < |b| && a[..k] == b[..k] && (k < |a| ==> a[k] < b[k]) {
      assert k > 0;
      assert a[1..][..k - 1] == a[..k][1..] && b[1..][..k - 1] == b[..k][1..];
    }
    if k :| 0 <= k <= |a[1..]| && k < |b[1..]| && a[1..][..k] == b[1..][..k] && (k < |a[1..]| ==> a[1..][k] < b[1..][k]) {
      assert a[..k + 1] == [a[0]] + a[1..][..k] && b[..k + 1] == [b[0]] + b[1..][..k];
    }
  }

  lemma {:induction false} CompareUnitsAt(a: seq<nat>, b: seq<nat>, c: seq<nat>)
    ensures CompareUnits(a, b) == 0 <==> a == b
    ensures CompareUnits(a, b) < 0 <==> CompareUnits(b, a) > 0
    ensures CompareUnits(a, b) <= 0 && CompareUnits(b, c) <= 0 ==> CompareUnits(a, c) <= 0
    decreases |a| + |b| + |c|
  {
    if a != [] && b != [] && a != b && a[0] == b[0] {
      assert a == [a[0]] + a[1..] && b == [b[0]] + b[1..];
      CompareUnitsAt(a[1..], b[1..], if c == [] then [] else c[1..]);
    }
    if a != [] && b != [] && c != [] && a[0] == b[0] == c[0] {
      assert a == [a[0]] + a[1..] && b == [b[0]] + b[1..] && c == [c[0]] + c[1..];
      CompareUnitsAt(a[1..], b[1..], c[1..]);
    }
  }

  lemma FirstUnits(c: char, d: char, s: seq<nat>, t: seq<nat>)
    requires Units(c) + s == Units(d) + t
    ensures c == d && s == t
  {
    var u := Units(c) + s;
    assert u[0] == Units(c)[0] == Units(d)[0];
    assert |Units(c)| > 1 ==> u[1] == Units(c)[1];
    assert |Units(d)| > 1 ==> u[1] == Units(d)[1];
    assert c == d;
    assert u[|Units(c)|..] == s && u[|Units(d)|..] == t;
  }

  /** Different strings have different code units. */
  lemma {:induction false} UnitsDetermine(a: string, b: string)
    requires UnitsOf(a) == UnitsOf(b)
    ensures a == b
  {
    if a != "" && b != "" {
      FirstUnits(a[0], b[0], UnitsOf(a[1..]), UnitsOf(b[1..]));
      UnitsDetermine(a[1..], b[1..]);
      assert a == [a[0]] + a[1..] && b == [b[0]] + b[1..];
    }
  }

  lemma CodeUnitsAt(a: string, b: string, c: string)
    ensures CodeUnits(a, b) == 0 <==> a == b
    ensures CodeUnits(a, b) < 0 <==> CodeUnits(b, a) > 0
    ensures CodeUnits(a, b) <= 0 && CodeUnits(b, c) <= 0 ==> CodeUnits(a, c) <= 0
  {
    CompareUnitsAt(UnitsOf(a), UnitsOf(b), UnitsOf(c));
    if UnitsOf(a) == UnitsOf(b) {
      UnitsDetermine(a, b);
    }
  }

  lemma CodeUnitsIsPreorder()
    ensures Preorder(CodeUnits)
  {
    forall a, b ensures CodeUnits(a, b) <= 0 || CodeUnits(b, a) <= 0 {
      CodeUnitsAt(a, b, a);
    }
    forall a, b, c ensures CodeUnits(a, b) <= 0 && CodeUnits(b, c) <= 0 ==> CodeUnits(a, c) <= 0 {
      CodeUnitsAt(a, b, c);
    }
  }

  // ---------------------------------------------------------------- the least fixpoint

  /** Holds the target and whatever its members install, as far as there are manifests. */
  ghost predicate InstallClosed(r: Registry, s: set<string>) {
    && (ManifestOf(r, TARGET_PACKAGE).Some? ==> TARGET_PACKAGE in s)
    && forall n, d | n in s && ManifestOf(r, n).Some? && d in Installed(ManifestOf(r, n).value) &&
        ManifestOf(r, d).Some? ::
         d in s
  }

  ghost predicate LeastClosed(r: Registry, s: set<string>) {
    InstallClosed(r, s) && forall t | InstallClosed(r, t) :: s <= t
  }

  ghost predicate Waiting(r: Registry, reached: set<string>, rest: seq<string>, n: string) {
    ManifestOf(r, n).None? || n in reached || n in rest
  }

  /** What holds at the loop head: everything found is needed, and everything needed is found or waiting. */
  ghost predicate Discovering(r: Registry, reached: set<string>, rest: seq<string>) {
    && (forall n | n in reached :: ManifestOf(r, n).Some?)
    && Waiting(r, reached, rest, TARGET_PACKAGE)
    && (forall n, d | n in reached && d in Installed(ManifestOf(r, n).value) :: Waiting(r, reached, rest, d))
    && (forall t, n | InstallClosed(r, t) && (n in reached || (n in rest && ManifestOf(r, n).Some?)) :: n in t)
  }

  lemma DropName(r: Registry, reached: set<string>, rest: seq<string>)
    requires rest != [] && Discovering(r, reached, rest)
    requires rest[0] in reached || ManifestOf(r, rest[0]).None?
    ensures Discovering(r, reached, rest[1..])
  {
    assert forall n | n in rest :: n == rest[0] || n in rest[1..];
    forall n | Waiting(r, reached, rest, n) ensures Waiting(r, reached, rest[1..], n) {
    }
  }

  lemma ReachName(r: Registry, reached: set<string>, rest: seq<string>, more: seq<string>)
    requires rest != [] && Discovering(r, reached, rest) && ManifestOf(r, rest[0]).Some?
    requires forall d :: d in more <==> d in Installed(ManifestOf(r, rest[0]).value) && d !in reached + {rest[0]}
    ensures Discovering(r, reached + {rest[0]}, rest[1..] + more)
  {
    var name, reached', rest' := rest[0], reached + {rest[0]}, rest[1..] + more;
    assert forall n | n in rest :: n == name || n in rest[1..];
    forall n | Waiting(r, reached, rest, n) ensures Waiting(r, reached', rest', n) {
    }
    forall t, n | InstallClosed(r, t) && (n in reached' || (n in rest' && ManifestOf(r, n).Some?)) ensures n in t {
      assert name in t;
    }
  }

  /** The packages installed with the target: the least closed set. */
  method ReachedPackages(r: Registry) returns (reached: seq<string>)
    ensures LeastClosed(r, (set n | n in reached))
    ensures Distinct(reached)
  {
    hide Discovering, LeastClosed, ManifestOf, Installed, Sort;
    reached := [];
    StartDiscovering(r);
    assert (set n | n in reached) == {};
    var queue, cursor := [TARGET_PACKAGE], 0;
    while cursor < |queue|
      invariant cursor <= |queue| && Discovering(r, (set n | n in reached), queue[cursor..])
      invariant Distinct(reached)
      decreases r.versions.Keys - (set n | n in reached), |queue| - cursor
    {
      var name := queue[cursor];
      var manifest := if name in reached then None else ManifestOf(r, name);
      if manifest.None? {
        DropName(r, (set n | n in reached), queue[cursor..]);
        NextInQueue(queue, [], cursor);
      } else {
        var found := reached + [name];
        var more := Excluding(Sort(Installed(manifest.value), CodeUnits), (set n | n in found));
        NameFound(r, reached, name, queue[cursor..], more);
        NextInQueue(queue, more, cursor);
        reached, queue := found, queue + more;
      }
      cursor := cursor + 1;
    }
    assert queue[cursor..] == [];
    FixpointReached(r, (set n | n in reached));
  }

  lemma NextInQueue(queue: seq<string>, more: seq<string>, cursor: nat)
    requires cursor < |queue|
    ensures (queue + more)[cursor + 1..] == queue[cursor..][1..] + more
    ensures more == [] ==> queue + more == queue
  {
  }

  /** Recording a name that has a manifest, and queueing what it installs beyond the names recorded. */
  lemma NameFound(r: Registry, reached: seq<string>, name: string, rest: seq<string>, more: seq<string>)
    requires rest != [] && rest[0] == name && name !in reached && ManifestOf(r, name).Some?
    requires Discovering(r, (set n | n in reached), rest)
    requires more == Excluding(Sort(Installed(ManifestOf(r, name).value), CodeUnits), (set n | n in reached + [name]))
    ensures Discovering(r, (set n | n in reached + [name]), rest[1..] + more)
    ensures r.versions.Keys - (set n | n in reached + [name]) < r.versions.Keys - (set n | n in reached)
  {
    hide Discovering, Installed, Sort;
    var before := set n | n in reached;
    assert (set n | n in reached + [name]) == before + {name};
    var installed := Installed(ManifestOf(r, name).value);
    SameElements(Sort(installed, CodeUnits), installed);
    ReachName(r, before, rest, more);
    assert name in r.versions.Keys - before;
  }

  lemma StartDiscovering(r: Registry)
    ensures Discovering(r, {}, [TARGET_PACKAGE])
  {
  }

  lemma FixpointReached(r: Registry, reached: set<string>)
    requires Discovering(r, reached, [])
    ensures LeastClosed(r, reached)
  {
    forall n, d | n in reached && ManifestOf(r, n).Some? && d in Installed(ManifestOf(r, n).value) &&
        ManifestOf(r, d).Some?
      ensures d in reached
    {
      assert Waiting(r, reached, [], d);
    }
  }

  // ---------------------------------------------------------------- candidates

  /** Released, not configured yet, and still publishing a peer other than Cordis. */
  predicate IsCandidate(r: Registry, name: string) {
    && name !in r.policy && name in r.released
    && ManifestOf(r, name).Some?
    && exists peer :: peer in ManifestOf(r, name).value.peerDependencies && peer != CORDIS
  }

  function Candidates(r: Registry, names: seq<string>): (kept: seq<string>)
    ensures forall n :: n in kept <==> n in names && IsCandidate(r, n)
    ensures |kept| <= |names|
  {
    if names == [] then []
    else if IsCandidate(r, names[0]) then [names[0]] + Candidates(r, names[1..])
    else Candidates(r, names[1..])
  }

  lemma {:induction false} CandidatesDistinct(r: Registry, names: seq<string>)
    requires Distinct(names)
    ensures Distinct(Candidates(r, names))
  {
    if names != [] {
      CandidatesDistinct(r, names[1..]);
      assert forall n | n in names[1..] :: n != names[0];
    }
  }

  /** The package is released and without policy, and its manifest still lists a peer other than Cordis. */
  ghost predicate Qualifies(r: Registry, name: string) {
    && name in r.released && name !in r.policy
    && name in r.versions && name in r.index && r.versions[name] in r.index[name]
    && exists peer :: peer in r.index[name][r.versions[name]].peerDependencies && peer != "@deepseek-ai/cordis"
  }

  lemma CandidateIff(r: Registry)
    ensures forall name :: IsCandidate(r, name) <==> Qualifies(r, name)
  {
  }

  /** The names stand in ascending order of their code units. */
  ghost predicate InCodeUnitOrder(names: seq<string>) {
    forall i, j | 0 <= i < j < |names| :: UnitsBefore(UnitsOf(names[i]), UnitsOf(names[j]))
  }

  lemma StrictlyOrdered(names: seq<string>)
    requires Distinct(names) && SortedBy(names, CodeUnits)
    ensures InCodeUnitOrder(names)
  {
    hide CompareUnits, UnitsOf, UnitsBefore;
    forall i, j | 0 <= i < j < |names| ensures UnitsBefore(UnitsOf(names[i]), UnitsOf(names[j])) {
      assert CodeUnits(names[i], names[j]) <= 0 && names[i] != names[j];
      CodeUnitsAt(names[i], names[j], names[i]);
      ComparesUnits(UnitsOf(names[i]), UnitsOf(names[j]));
    }
  }

  /** The candidates are exactly the members of the least closed set that qualify, each once, in sorted order. */
  method DiscoverBenchmarkCandidates(r: Registry) returns (candidates: seq<string>)
    ensures exists reached :: LeastClosed(r, reached)
    ensures forall reached, n | LeastClosed(r, reached) :: n in candidates <==> n in reached && Qualifies(r, n)
    ensures Distinct(candidates) && InCodeUnitOrder(candidates)
  {
    hide LeastClosed, IsCandidate, Qualifies, CodeUnits, InCodeUnitOrder, Distinct;
    var reached := ReachedPackages(r);
    var kept := Candidates(r, reached);
    candidates := Sort(kept, CodeUnits);
    CodeUnitsIsPreorder();
    SortSorts(kept, CodeUnits);
    SameElements(kept, candidates);
    CandidatesDistinct(r, reached);
    DistinctPermuted(kept, candidates);
    StrictlyOrdered(candidates);
    CandidateIff(r);
    ghost var all := set n | n in reached;
    forall other | LeastClosed(r, other) ensures other == all {
      LeastClosedUnique(r, other, all);
    }
  }

  /** There is one least closed set, so the candidates do not depend on the order of the walk. */
  lemma LeastClosedUnique(r: Registry, s: set<string>, t: set<string>)
    requires LeastClosed(r, s) && LeastClosed(r, t)
    ensures s == t
  {
  }
}
