/**
 * The lookup answers as definitely as it can: unknown is said only where what lies out of reach decides,
 * unless a key of declaration and remaining length is met twice.
 */
module ConfigExactness {
  import opened Results
  import opened ConfigTypes
  import opened ConfigPresence
  import opened ConfigSoundness
  import opened Sequences

  /** Nothing exists beyond the blind places. */
  const NOWHERE: Completion := (place, path) => false

  /** Everything exists beyond the blind places. */
  const EVERYWHERE: Completion := (place, path) => true

  // ---------------------------------------------------------------- the keys a walk would enter

  /** The keys entered below a type when none is ever skipped, at most `n` declarations deep. */
  function Entered(w: World, file: string, node: TypeNode, steps: seq<Step>, n: nat): seq<Key>
    decreases n, 1, node
  {
    if steps == [] then []
    else match node
      case TypeLiteral(members) =>
        if steps[0].Element? then []
        else
          var property := FindProperty(members, steps[0].name);
          if property.Some? then EnteredBelow(w, file, property.value, steps, n) else []
      case Parenthesized(inner) => Entered(w, file, inner, steps, n)
      case Intersection(first, others) => Entered(w, file, first, steps, n) + EnteredByParts(w, file, others, steps, n)
      case Union(first, others) => Entered(w, file, first, steps, n) + EnteredByParts(w, file, others, steps, n)
      case ArrayOf(element) => if steps[0].Element? then Entered(w, file, element, steps[1..], n) else []
      case Readonly(inner) => Entered(w, file, inner, steps, n)
      case IndexedAccess(target, key) =>
        if key.Some? then Entered(w, file, target, [Member(key.value)] + steps, n) else []
      case Reference(name, qualified, args) =>
        if name in PASSTHROUGH_WRAPPERS && args != [] then Entered(w, file, args[0], steps, n)
        else if name in ARRAY_NAMES && args != [] then
          if steps[0].Element? then Entered(w, file, args[0], steps[1..], n) else []
        else
          var id := Resolve(w, file, name);
          if qualified || id.None? then [] else EnteredByDecl(w, id.value, steps, n)
      case Other(_) => []
  }

  function EnteredBelow(w: World, file: string, property: TypeMember, steps: seq<Step>, n: nat): seq<Key>
    requires property.Property? && steps != []
    decreases n, 1, property
  {
    if |steps| == 1 || property.declared.None? then [] else Entered(w, file, property.declared.value, steps[1..], n)
  }

  function EnteredByParts(w: World, file: string, parts: seq<TypeNode>, steps: seq<Step>, n: nat): seq<Key>
    decreases n, 1, parts
  {
    if parts == [] then []
    else Entered(w, file, parts[0], steps, n) + EnteredByParts(w, file, parts[1..], steps, n)
  }

  function EnteredByDecl(w: World, id: DeclId, steps: seq<Step>, n: nat): seq<Key>
    requires id in w.decls
    decreases n, 0, 0
  {
    if steps == [] || n == 0 then []
    else
      match w.decls[id]
      case Enum(_) => []
      case Alias(file, body) => [(id, |steps|)] + Entered(w, file, body, steps, n - 1)
      case Interface(file, members, bases) =>
        [(id, |steps|)] +
        if steps[0].Element? then []
        else
          var property := FindProperty(members, steps[0].name);
          if property.Some? then EnteredBelow(w, file, property.value, steps, n - 1)
          else EnteredByBases(w, file, bases, steps, n - 1)
  }

  function EnteredByBases(w: World, file: string, bases: seq<Base>, steps: seq<Step>, n: nat): seq<Key>
    decreases n, 1, bases
  {
    if bases == [] then []
    else EnteredByBase(w, file, bases[0], steps, n) + EnteredByBases(w, file, bases[1..], steps, n)
  }

  function EnteredByBase(w: World, file: string, base: Base, steps: seq<Step>, n: nat): seq<Key>
    decreases n, 0, 1
  {
    var id := if base.NamedBase? then Resolve(w, file, base.name) else None;
    if id.None? then [] else EnteredByDecl(w, id.value, steps, n)
  }

  /** Nowhere down to `n` declarations deep is a declaration met twice with as many steps left. */
  ghost predicate EntersOnce(w: World, id: DeclId, steps: seq<Step>, n: nat)
    requires id in w.decls
  {
    Distinct(EnteredByDecl(w, id, steps, n))
  }

  // ---------------------------------------------------------------- keys not seen before

  ghost predicate Fresh(keys: seq<Key>, seen: set<Key>) {
    Distinct(keys) && forall k | k in keys :: k !in seen
  }

  ghost predicate Within(keys: seq<Key>, seen: set<Key>, more: set<Key>) {
    more <= seen + set k | k in keys
  }

  lemma FreshSplit(a: seq<Key>, b: seq<Key>, seen: set<Key>, more: set<Key>)
    requires Fresh(a + b, seen) && Within(a, seen, more)
    ensures Fresh(a, seen) && Fresh(b, more)
  {
    var c := a + b;
    assert forall i | 0 <= i < |a| :: c[i] == a[i];
    assert forall j | 0 <= j < |b| :: c[|a| + j] == b[j];
  }

  lemma FreshJoin(a: seq<Key>, b: seq<Key>, seen: set<Key>, more: set<Key>)
    requires Fresh(a, seen) && Fresh(b, more) && seen <= more && forall k | k in a :: k in more
    ensures Fresh(a + b, seen)
  {
    var c := a + b;
    forall i, j | 0 <= i < j < |c| ensures c[i] != c[j] {
      assert i < |a| <= j ==> c[i] in a && c[j] in b;
    }
  }

  // ---------------------------------------------------------------- only those keys are added

  lemma {:induction false} NodeAdds(w: World, file: string, node: TypeNode, steps: seq<Step>, seen: set<Key>, fuel: nat)
    ensures var r := LookupNode(w, file, node, steps, seen, fuel);
            r.Done? ==> Within(Entered(w, file, node, steps, fuel + 1), seen, r.seen)
    decreases fuel, 1, node
  {
    if steps != [] {
      match node
      case TypeLiteral(members) =>
        if steps[0].Member? && FindProperty(members, steps[0].name).Some? {
          PropertyAdds(w, file, FindProperty(members, steps[0].name).value, steps, seen, fuel);
        }
      case Parenthesized(inner) => NodeAdds(w, file, inner, steps, seen, fuel);
      case Intersection(first, others) => BranchesAdd(w, file, node, first, others, steps, seen, fuel);
      case Union(first, others) => BranchesAdd(w, file, node, first, others, steps, seen, fuel);
      case ArrayOf(element) =>
        if steps[0].Element? {
          NodeAdds(w, file, element, steps[1..], seen, fuel);
        }
      case Readonly(inner) => NodeAdds(w, file, inner, steps, seen, fuel);
      case IndexedAccess(target, key) =>
        if key.Some? {
          NodeAdds(w, file, target, [Member(key.value)] + steps, seen, fuel);
        }
      case Reference(name, qualified, args) =>
        if name in PASSTHROUGH_WRAPPERS && args != [] {
          NodeAdds(w, file, args[0], steps, seen, fuel);
        } else if name in ARRAY_NAMES && args != [] {
          if steps[0].Element? {
            NodeAdds(w, file, args[0], steps[1..], seen, fuel);
          }
        } else if !qualified && Resolve(w, file, name).Some? {
          DeclAdds(w, Resolve(w, file, name).value, steps, seen, fuel);
        }
      case Other(_) =>
    }
  }

  lemma {:induction false} BranchesAdd(w: World, file: string, node: TypeNode, first: TypeNode, others: seq<TypeNode>,
                                       steps: seq<Step>, seen: set<Key>, fuel: nat)
    requires node == Union(first, others) || node == Intersection(first, others)
    requires steps != []
    ensures var r := LookupNode(w, file, node, steps, seen, fuel);
            r.Done? ==> Within(Entered(w, file, node, steps, fuel + 1), seen, r.seen)
    decreases fuel, 1, node, 0
  {
    var head := LookupNode(w, file, first, steps, seen, fuel);
    NodeAdds(w, file, first, steps, seen, fuel);
    if head.Done? {
      PartsAdd(w, file, others, steps, head.seen, fuel);
    }
  }

  lemma {:induction false} PropertyAdds(w: World, file: string, property: TypeMember, steps: seq<Step>, seen: set<Key>,
                                        fuel: nat)
    requires property.Property? && steps != []
    ensures var r := LookupProperty(w, file, property, steps, seen, fuel);
            r.Done? ==> Within(EnteredBelow(w, file, property, steps, fuel + 1), seen, r.seen)
    decreases fuel, 1, property
  {
    if |steps| > 1 && property.declared.Some? {
      NodeAdds(w, file, property.declared.value, steps[1..], seen, fuel);
    }
  }

  lemma {:induction false} PartsAdd(w: World, file: string, parts: seq<TypeNode>, steps: seq<Step>, seen: set<Key>,
                                    fuel: nat)
    ensures var r := LookupParts(w, file, parts, steps, seen, fuel);
            r.DoneParts? ==> Within(EnteredByParts(w, file, parts, steps, fuel + 1), seen, r.seen)
    decreases fuel, 1, parts
  {
    if parts != [] {
      var one := LookupNode(w, file, parts[0], steps, seen, fuel);
      NodeAdds(w, file, parts[0], steps, seen, fuel);
      if one.Done? {
        PartsAdd(w, file, parts[1..], steps, one.seen, fuel);
      }
    }
  }

  lemma {:induction false} DeclAdds(w: World, id: DeclId, steps: seq<Step>, seen: set<Key>, fuel: nat)
    requires id in w.decls
    ensures var r := LookupDecl(w, id, steps, seen, fuel);
            r.Done? ==> Within(EnteredByDecl(w, id, steps, fuel + 1), seen, r.seen)
    decreases fuel, 0, 0
  {
    if steps != [] && !w.decls[id].Enum? && (id, |steps|) !in seen && fuel > 0 {
      var seen' := seen + {(id, |steps|)};
      match w.decls[id]
      case Alias(file, body) => NodeAdds(w, file, body, steps, seen', fuel - 1);
      case Interface(file, members, bases) =>
        if steps[0].Member? {
          var property := FindProperty(members, steps[0].name);
          if property.Some? {
            PropertyAdds(w, file, property.value, steps, seen', fuel - 1);
          } else {
            BasesAdd(w, file, bases, steps, seen', fuel - 1);
          }
        }
    }
  }

  lemma {:induction false} BasesAdd(w: World, file: string, bases: seq<Base>, steps: seq<Step>, seen: set<Key>, fuel: nat)
    ensures var r := LookupBases(w, file, bases, steps, seen, fuel);
            r.DoneParts? ==> Within(EnteredByBases(w, file, bases, steps, fuel + 1), seen, r.seen)
    decreases fuel, 1, bases
  {
    if bases != [] {
      var one := LookupBase(w, file, bases[0], steps, seen, fuel);
      if bases[0].NamedBase? && Resolve(w, file, bases[0].name).Some? {
        DeclAdds(w, Resolve(w, file, bases[0].name).value, steps, seen, fuel);
      }
      if one.Done? {
        BasesAdd(w, file, bases[1..], steps, one.seen, fuel);
      }
    }
  }

  // ---------------------------------------------------------------- unknown is undecided

  /** An answer other than found leaves the path absent somewhere, an answer other than missing present somewhere. */
  ghost predicate Exact(w: World, file: string, node: TypeNode, steps: seq<Step>, result: PathLookup) {
    && (result != Found ==> !Present(w, NOWHERE, file, node, steps))
    && (result != Missing ==> !Absent(w, EVERYWHERE, file, node, steps))
  }

  ghost predicate ExactDecl(w: World, id: DeclId, steps: seq<Step>, result: PathLookup)
    requires id in w.decls
  {
    && (result != Found ==> !PresentDecl(w, NOWHERE, id, steps))
    && (result != Missing ==> !AbsentDecl(w, EVERYWHERE, id, steps))
  }

  ghost predicate ExactBelow(w: World, file: string, property: TypeMember, steps: seq<Step>, result: PathLookup)
    requires property.Property? && steps != []
  {
    && (result != Found ==> !PresentBelow(w, NOWHERE, file, property, steps))
    && (result != Missing ==> !AbsentBelow(w, EVERYWHERE, file, property, steps))
  }

  ghost predicate ExactParts(w: World, file: string, parts: seq<TypeNode>, steps: seq<Step>, results: seq<PathLookup>) {
    |results| == |parts| && forall i | 0 <= i < |parts| :: Exact(w, file, parts[i], steps, results[i])
  }

  ghost predicate ExactBase(w: World, file: string, base: Base, steps: seq<Step>, result: PathLookup) {
    && (result != Found ==> !PresentBase(w, NOWHERE, file, base, steps))
    && (result != Missing ==> !AbsentBase(w, EVERYWHERE, file, base, steps))
  }

  ghost predicate ExactBases(w: World, file: string, bases: seq<Base>, steps: seq<Step>, results: seq<PathLookup>) {
    |results| == |bases| && forall i | 0 <= i < |bases| :: ExactBase(w, file, bases[i], steps, results[i])
  }

  lemma {:induction false} NodeExact(w: World, file: string, node: TypeNode, steps: seq<Step>, seen: set<Key>, fuel: nat)
    requires Fresh(Entered(w, file, node, steps, fuel + 1), seen)
    ensures var r := LookupNode(w, file, node, steps, seen, fuel);
            r.Done? ==> Exact(w, file, node, steps, r.result)
    decreases fuel, 1, node, 1
  {
    hide Exact;
    if steps == [] {
      EmptyExact(w, file, node);
    } else {
      match node
      case TypeLiteral(members) => LiteralExact(w, file, node, members, steps, seen, fuel);
      case Parenthesized(inner) => SameExact(w, file, node, steps, inner, steps, seen, fuel);
      case Intersection(first, others) => BranchesExact(w, file, node, first, others, steps, seen, fuel);
      case Union(first, others) => BranchesExact(w, file, node, first, others, steps, seen, fuel);
      case ArrayOf(element) =>
        if steps[0].Element? {
          SameExact(w, file, node, steps, element, steps[1..], seen, fuel);
        } else {
          BlindExact(w, file, node, steps);
        }
      case Readonly(inner) => SameExact(w, file, node, steps, inner, steps, seen, fuel);
      case IndexedAccess(target, key) =>
        if key.Some? {
          SameExact(w, file, node, steps, target, [Member(key.value)] + steps, seen, fuel);
        } else {
          BlindExact(w, file, node, steps);
        }
      case Reference(name, qualified, args) =>
        if name in PASSTHROUGH_WRAPPERS && args != [] {
          SameExact(w, file, node, steps, args[0], steps, seen, fuel);
        } else if name in ARRAY_NAMES && args != [] && steps[0].Element? {
          SameExact(w, file, node, steps, args[0], steps[1..], seen, fuel);
        } else if (name in ARRAY_NAMES && args != []) || qualified || Resolve(w, file, name).None? {
          BlindExact(w, file, node, steps);
        } else {
          NameExact(w, file, node, steps, seen, fuel);
        }
      case Other(_) => BlindExact(w, file, node, steps);
    }
  }

  lemma EmptyExact(w: World, file: string, node: TypeNode)
    ensures Exact(w, file, node, [], Found)
  {
    assert Has(w, Reading(false, EVERYWHERE), file, node, [], 0);
  }

  /** Where only the completion decides, unknown is right. */
  lemma BlindExact(w: World, file: string, node: TypeNode, steps: seq<Step>)
    requires forall every: bool, beyond: Completion, n: nat ::
               Has(w, Reading(every, beyond), file, node, steps, n) == beyond(AtNode(file, node), steps)
    ensures Exact(w, file, node, steps, Unknown)
  {
    hide Has;
    assert Has(w, Reading(false, EVERYWHERE), file, node, steps, 0);
  }

  lemma {:induction false} SameExact(w: World, file: string, node: TypeNode, steps: seq<Step>, node': TypeNode,
                                     steps': seq<Step>, seen: set<Key>, fuel: nat)
    requires node' < node && Fresh(Entered(w, file, node, steps, fuel + 1), seen)
    requires Entered(w, file, node, steps, fuel + 1) == Entered(w, file, node', steps', fuel + 1)
    requires LookupNode(w, file, node, steps, seen, fuel) == LookupNode(w, file, node', steps', seen, fuel)
    requires forall q: Reading, n: nat :: Has(w, q, file, node, steps, n) == Has(w, q, file, node', steps', n)
    ensures var r := LookupNode(w, file, node, steps, seen, fuel);
            r.Done? ==> Exact(w, file, node, steps, r.result)
    decreases fuel, 1, node, 0
  {
    hide Has;
    NodeExact(w, file, node', steps', seen, fuel);
    if n: nat :| Has(w, Reading(false, EVERYWHERE), file, node', steps', n) {
      assert Has(w, Reading(false, EVERYWHERE), file, node, steps, n);
    }
  }

  lemma {:induction false} LiteralExact(w: World, file: string, node: TypeNode, members: seq<TypeMember>,
                                        steps: seq<Step>, seen: set<Key>, fuel: nat)
    requires node == TypeLiteral(members) && steps != [] && Fresh(Entered(w, file, node, steps, fuel + 1), seen)
    ensures var r := LookupNode(w, file, node, steps, seen, fuel);
            r.Done? ==> Exact(w, file, node, steps, r.result)
    decreases fuel, 1, node, 0
  {
    if steps[0].Element? {
      BlindExact(w, file, node, steps);
    } else {
      var property := FindProperty(members, steps[0].name);
      if property.Some? {
        PropertyExact(w, file, property.value, steps, seen, fuel);
        if n: nat :| HasBelow(w, Reading(false, EVERYWHERE), file, property.value, steps, n) {
          assert Has(w, Reading(false, EVERYWHERE), file, node, steps, n);
        }
        forall n: nat | !PresentBelow(w, NOWHERE, file, property.value, steps)
          ensures !Has(w, Reading(true, NOWHERE), file, node, steps, n)
        {
          assert !HasBelow(w, Reading(true, NOWHERE), file, property.value, steps, n);
        }
      }
    }
  }

  lemma {:induction false} PropertyExact(w: World, file: string, property: TypeMember, steps: seq<Step>, seen: set<Key>,
                                         fuel: nat)
    requires property.Property? && steps != [] && Fresh(EnteredBelow(w, file, property, steps, fuel + 1), seen)
    ensures var r := LookupProperty(w, file, property, steps, seen, fuel);
            r.Done? ==> ExactBelow(w, file, property, steps, r.result)
    decreases fuel, 1, property
  {
    if |steps| == 1 || property.declared.None? {
      assert HasBelow(w, Reading(false, EVERYWHERE), file, property, steps, 0);
    } else {
      var t := property.declared.value;
      NodeExact(w, file, t, steps[1..], seen, fuel);
      if n: nat :| Has(w, Reading(false, EVERYWHERE), file, t, steps[1..], n) {
        assert HasBelow(w, Reading(false, EVERYWHERE), file, property, steps, n);
      }
      forall n: nat | !Present(w, NOWHERE, file, t, steps[1..])
        ensures !HasBelow(w, Reading(true, NOWHERE), file, property, steps, n)
      {
        assert !Has(w, Reading(true, NOWHERE), file, t, steps[1..], n);
      }
    }
  }

  lemma {:induction false} NameExact(w: World, file: string, node: TypeNode, steps: seq<Step>, seen: set<Key>, fuel: nat)
    requires node.Reference? && !node.qualified && Resolve(w, file, node.name).Some? && steps != []
    requires node.args == [] || (node.name !in PASSTHROUGH_WRAPPERS && node.name !in ARRAY_NAMES)
    requires Fresh(Entered(w, file, node, steps, fuel + 1), seen)
    ensures var r := LookupNode(w, file, node, steps, seen, fuel);
            r.Done? ==> Exact(w, file, node, steps, r.result)
    decreases fuel, 1, node, 0
  {
    var id := Resolve(w, file, node.name).value;
    DeclExact(w, id, steps, seen, fuel);
    if n: nat :| HasDecl(w, Reading(false, EVERYWHERE), id, steps, n) {
      assert Has(w, Reading(false, EVERYWHERE), file, node, steps, n);
    }
    forall n: nat | !PresentDecl(w, NOWHERE, id, steps) ensures !Has(w, Reading(true, NOWHERE), file, node, steps, n) {
      assert !HasDecl(w, Reading(true, NOWHERE), id, steps, n);
    }
  }

  lemma {:induction false} BranchesExact(w: World, file: string, node: TypeNode, first: TypeNode, others: seq<TypeNode>,
                                         steps: seq<Step>, seen: set<Key>, fuel: nat)
    requires node == Union(first, others) || node == Intersection(first, others)
    requires steps != [] && Fresh(Entered(w, file, node, steps, fuel + 1), seen)
    ensures var r := LookupNode(w, file, node, steps, seen, fuel);
            r.Done? ==> Exact(w, file, node, steps, r.result)
    decreases fuel, 1, node, 0
  {
    hide Exact, Combine, Agree, Fresh, Within;
    var head := LookupNode(w, file, first, steps, seen, fuel);
    if head.Done? {
      NodeAdds(w, file, first, steps, seen, fuel);
      FreshSplit(Entered(w, file, first, steps, fuel + 1), EnteredByParts(w, file, others, steps, fuel + 1), seen,
          head.seen);
      NodeExact(w, file, first, steps, seen, fuel);
      PartsExact(w, file, others, steps, head.seen, fuel);
      var tail := LookupParts(w, file, others, steps, head.seen, fuel);
      if tail.DoneParts? {
        var results := [head.result] + tail.results;
        if node.Union? {
          UnionExact(w, file, first, others, steps, results);
        } else {
          IntersectionExact(w, file, first, others, steps, results);
        }
      }
    }
  }

  lemma UnionExact(w: World, file: string, first: TypeNode, others: seq<TypeNode>, steps: seq<Step>,
                   results: seq<PathLookup>)
    requires steps != [] && ExactParts(w, file, [first] + others, steps, results)
    ensures Exact(w, file, Union(first, others), steps, Agree(results))
  {
    var parts := [first] + others;
    if Agree(results) != Found {
      var i :| 0 <= i < |results| && results[i] != Found;
      forall n: nat ensures !Has(w, Reading(true, NOWHERE), file, Union(first, others), steps, n) {
        PartWithout(w, file, parts, steps, results, i, n);
        assert i > 0 ==> parts[i] == others[i - 1];
      }
    }
    if Agree(results) != Missing {
      assert results[0] in results;
      var result :| result in results && result != Missing;
      var i :| 0 <= i < |results| && results[i] == result;
      SomePartHas(w, file, first, others, steps, results, i);
    }
  }

  lemma IntersectionExact(w: World, file: string, first: TypeNode, others: seq<TypeNode>, steps: seq<Step>,
                          results: seq<PathLookup>)
    requires steps != [] && ExactParts(w, file, [first] + others, steps, results)
    ensures Exact(w, file, Intersection(first, others), steps, Combine(results))
  {
    var parts := [first] + others;
    if Combine(results) != Found {
      forall n: nat ensures !Has(w, Reading(true, NOWHERE), file, Intersection(first, others), steps, n) {
        NoPartHolds(w, file, first, others, steps, results, n);
      }
    }
    if Combine(results) != Missing {
      var tainted := if Found in results then Found else Unknown;
      assert tainted in results;
      var i :| 0 <= i < |results| && results[i] == tainted;
      SomePartHas(w, file, first, others, steps, results, i);
    }
  }

  lemma NoPartHolds(w: World, file: string, first: TypeNode, others: seq<TypeNode>, steps: seq<Step>,
                    results: seq<PathLookup>, n: nat)
    requires ExactParts(w, file, [first] + others, steps, results) && Found !in results
    ensures !Has(w, Reading(true, NOWHERE), file, first, steps, n)
    ensures forall i | 0 <= i < |others| :: !Has(w, Reading(true, NOWHERE), file, others[i], steps, n)
  {
    hide Has;
    var parts := [first] + others;
    forall i | 0 <= i < |parts| ensures !Has(w, Reading(true, NOWHERE), file, parts[i], steps, n) {
      assert results[i] in results;
      PartWithout(w, file, parts, steps, results, i, n);
    }
    assert parts[0] == first && forall i | 0 <= i < |others| :: others[i] == parts[i + 1];
  }

  lemma PartWithout(w: World, file: string, parts: seq<TypeNode>, steps: seq<Step>, results: seq<PathLookup>, i: nat,
                    n: nat)
    requires ExactParts(w, file, parts, steps, results) && i < |parts| && results[i] != Found
    ensures !Has(w, Reading(true, NOWHERE), file, parts[i], steps, n)
  {
    hide Has;
    assert Exact(w, file, parts[i], steps, results[i]);
  }

  lemma SomePartHas(w: World, file: string, first: TypeNode, others: seq<TypeNode>, steps: seq<Step>,
                    results: seq<PathLookup>, i: nat)
    requires steps != [] && ExactParts(w, file, [first] + others, steps, results)
    requires i < |results| && results[i] != Missing
    ensures !Absent(w, EVERYWHERE, file, Union(first, others), steps)
    ensures !Absent(w, EVERYWHERE, file, Intersection(first, others), steps)
  {
    var parts := [first] + others;
    assert Exact(w, file, parts[i], steps, results[i]);
    var n: nat :| Has(w, Reading(false, EVERYWHERE), file, parts[i], steps, n);
    assert i > 0 ==> parts[i] == others[i - 1];
    assert Has(w, Reading(false, EVERYWHERE), file, Union(first, others), steps, n);
    assert Has(w, Reading(false, EVERYWHERE), file, Intersection(first, others), steps, n);
  }

  lemma {:induction false} PartsExact(w: World, file: string, parts: seq<TypeNode>, steps: seq<Step>, seen: set<Key>,
                                      fuel: nat)
    requires Fresh(EnteredByParts(w, file, parts, steps, fuel + 1), seen)
    ensures var r := LookupParts(w, file, parts, steps, seen, fuel);
            r.DoneParts? ==> ExactParts(w, file, parts, steps, r.results)
    decreases fuel, 1, parts
  {
    hide Exact, Fresh, Within;
    var r := LookupParts(w, file, parts, steps, seen, fuel);
    if parts != [] && r.DoneParts? {
      var one := LookupNode(w, file, parts[0], steps, seen, fuel);
      NodeAdds(w, file, parts[0], steps, seen, fuel);
      FreshSplit(Entered(w, file, parts[0], steps, fuel + 1), EnteredByParts(w, file, parts[1..], steps, fuel + 1), seen,
          one.seen);
      NodeExact(w, file, parts[0], steps, seen, fuel);
      PartsExact(w, file, parts[1..], steps, one.seen, fuel);
      forall i | 0 <= i < |parts| ensures Exact(w, file, parts[i], steps, r.results[i]) {
        assert i > 0 ==> parts[i] == parts[1..][i - 1];
      }
    }
  }

  lemma {:induction false} DeclExact(w: World, id: DeclId, steps: seq<Step>, seen: set<Key>, fuel: nat)
    requires id in w.decls && Fresh(EnteredByDecl(w, id, steps, fuel + 1), seen)
    ensures var r := LookupDecl(w, id, steps, seen, fuel);
            r.Done? ==> ExactDecl(w, id, steps, r.result)
    decreases fuel, 0, 1
  {
    if steps == [] || w.decls[id].Enum? {
      assert HasDecl(w, Reading(false, EVERYWHERE), id, steps, 1);
      assert steps != [] ==> forall n: nat :: !HasDecl(w, Reading(true, NOWHERE), id, steps, n);
    } else if fuel > 0 {
      EnteredExact(w, id, steps, seen, fuel);
    }
  }

  lemma {:induction false} EnteredExact(w: World, id: DeclId, steps: seq<Step>, seen: set<Key>, fuel: nat)
    requires id in w.decls && !w.decls[id].Enum? && steps != [] && fuel > 0
    requires Fresh(EnteredByDecl(w, id, steps, fuel + 1), seen)
    ensures var r := LookupDecl(w, id, steps, seen, fuel);
            r.Done? ==> ExactDecl(w, id, steps, r.result)
    decreases fuel, 0, 0
  {
    hide Fresh, Within, Combine;
    var key := (id, |steps|);
    var seen' := seen + {key};
    KeyIsFresh(key, EnteredByDecl(w, id, steps, fuel + 1), seen);
    match w.decls[id]
    case Alias(file, body) =>
      NodeExact(w, file, body, steps, seen', fuel - 1);
      if n: nat :| Has(w, Reading(false, EVERYWHERE), file, body, steps, n) {
        assert HasDecl(w, Reading(false, EVERYWHERE), id, steps, n + 1);
      }
      forall n: nat | !Present(w, NOWHERE, file, body, steps) ensures !HasDecl(w, Reading(true, NOWHERE), id, steps, n) {
        assert n > 0 ==> !Has(w, Reading(true, NOWHERE), file, body, steps, n - 1);
      }
    case Interface(file, members, bases) =>
      if steps[0].Element? {
        assert HasDecl(w, Reading(false, EVERYWHERE), id, steps, 1);
      } else {
        var property := FindProperty(members, steps[0].name);
        if property.Some? {
          PropertyExact(w, file, property.value, steps, seen', fuel - 1);
          if n: nat :| HasBelow(w, Reading(false, EVERYWHERE), file, property.value, steps, n) {
            assert HasDecl(w, Reading(false, EVERYWHERE), id, steps, n + 1);
          }
          forall n: nat | !PresentBelow(w, NOWHERE, file, property.value, steps)
            ensures !HasDecl(w, Reading(true, NOWHERE), id, steps, n)
          {
            assert n > 0 ==> !HasBelow(w, Reading(true, NOWHERE), file, property.value, steps, n - 1);
          }
        } else {
          BasesExact(w, file, bases, steps, seen', fuel - 1);
          var parts := LookupBases(w, file, bases, steps, seen', fuel - 1);
          if parts.DoneParts? {
            InterfaceExact(w, id, file, members, bases, steps, parts.results);
          }
        }
      }
  }

  lemma KeyIsFresh(key: Key, keys: seq<Key>, seen: set<Key>)
    requires keys != [] && keys[0] == key && Fresh(keys, seen)
    ensures key !in seen && Fresh(keys[1..], seen + {key})
  {
    assert keys == [key] + keys[1..];
    FreshSplit([key], keys[1..], seen, seen + {key});
  }

  lemma InterfaceExact(w: World, id: DeclId, file: string, members: seq<TypeMember>, bases: seq<Base>, steps: seq<Step>,
                       results: seq<PathLookup>)
    requires id in w.decls && w.decls[id] == Interface(file, members, bases)
    requires steps != [] && steps[0].Member? && FindProperty(members, steps[0].name) == None
    requires ExactBases(w, file, bases, steps, results)
    ensures ExactDecl(w, id, steps, Combine(results)) && (bases == [] ==> Combine(results) == Missing)
  {
    hide HasBase;
    if Combine(results) != Found {
      forall n: nat ensures !HasDecl(w, Reading(true, NOWHERE), id, steps, n) {
        forall i | 0 <= i < |bases| && n > 0 ensures !HasBase(w, Reading(true, NOWHERE), file, bases[i], steps, n - 1) {
          assert results[i] in results;
          assert ExactBase(w, file, bases[i], steps, results[i]);
        }
      }
    }
    if Combine(results) != Missing {
      var i :| 0 <= i < |results| && results[i] != Missing;
      assert ExactBase(w, file, bases[i], steps, results[i]);
      var n: nat :| HasBase(w, Reading(false, EVERYWHERE), file, bases[i], steps, n);
      assert HasDecl(w, Reading(false, EVERYWHERE), id, steps, n + 1);
    }
  }

  lemma {:induction false} BasesExact(w: World, file: string, bases: seq<Base>, steps: seq<Step>, seen: set<Key>,
                                      fuel: nat)
    requires Fresh(EnteredByBases(w, file, bases, steps, fuel + 1), seen)
    ensures var r := LookupBases(w, file, bases, steps, seen, fuel);
            r.DoneParts? ==> ExactBases(w, file, bases, steps, r.results)
    decreases fuel, 1, bases
  {
    hide ExactBase, Fresh, Within;
    var r := LookupBases(w, file, bases, steps, seen, fuel);
    if bases != [] && r.DoneParts? {
      var one := LookupBase(w, file, bases[0], steps, seen, fuel);
      BaseAdds(w, file, bases[0], steps, seen, fuel);
      FreshSplit(EnteredByBase(w, file, bases[0], steps, fuel + 1),
          EnteredByBases(w, file, bases[1..], steps, fuel + 1), seen, one.seen);
      BaseExact(w, file, bases[0], steps, seen, fuel);
      BasesExact(w, file, bases[1..], steps, one.seen, fuel);
      forall i | 0 <= i < |bases| ensures ExactBase(w, file, bases[i], steps, r.results[i]) {
        assert i > 0 ==> bases[i] == bases[1..][i - 1];
      }
    }
  }

  lemma BaseAdds(w: World, file: string, base: Base, steps: seq<Step>, seen: set<Key>, fuel: nat)
    ensures var r := LookupBase(w, file, base, steps, seen, fuel);
            r.Done? ==> Within(EnteredByBase(w, file, base, steps, fuel + 1), seen, r.seen)
  {
    if base.NamedBase? && Resolve(w, file, base.name).Some? {
      DeclAdds(w, Resolve(w, file, base.name).value, steps, seen, fuel);
    }
  }

  lemma {:induction false} BaseExact(w: World, file: string, base: Base, steps: seq<Step>, seen: set<Key>, fuel: nat)
    requires Fresh(EnteredByBase(w, file, base, steps, fuel + 1), seen)
    ensures var r := LookupBase(w, file, base, steps, seen, fuel);
            r.Done? ==> ExactBase(w, file, base, steps, r.result)
    decreases fuel, 0, 2
  {
    if base.NamedBase? && Resolve(w, file, base.name).Some? {
      var id := Resolve(w, file, base.name).value;
      DeclExact(w, id, steps, seen, fuel);
      if n: nat :| HasDecl(w, Reading(false, EVERYWHERE), id, steps, n) {
        assert HasBase(w, Reading(false, EVERYWHERE), file, base, steps, n);
      }
      forall n: nat | !PresentDecl(w, NOWHERE, id, steps)
        ensures !HasBase(w, Reading(true, NOWHERE), file, base, steps, n)
      {
        assert !HasDecl(w, Reading(true, NOWHERE), id, steps, n);
      }
    } else {
      assert HasBase(w, Reading(false, EVERYWHERE), file, base, steps, 0);
    }
  }

  // ---------------------------------------------------------------- missing met no key twice

  /** The walk met each of the keys for the first time. */
  ghost predicate MetOnce(keys: seq<Key>, seen: set<Key>, more: set<Key>) {
    Fresh(keys, seen) && seen <= more && forall k | k in keys :: k in more
  }

  lemma MetTogether(a: seq<Key>, b: seq<Key>, seen: set<Key>, between: set<Key>, more: set<Key>)
    requires MetOnce(a, seen, between) && MetOnce(b, between, more)
    ensures MetOnce(a + b, seen, more)
  {
    FreshJoin(a, b, seen, between);
  }

  lemma {:induction false} MissingNode(w: World, file: string, node: TypeNode, steps: seq<Step>, seen: set<Key>,
                                       fuel: nat, n: nat)
    ensures var r := LookupNode(w, file, node, steps, seen, fuel);
            r.Done? && r.result == Missing ==> MetOnce(Entered(w, file, node, steps, n), seen, r.seen)
    decreases fuel, 1, node
  {
    if steps != [] {
      match node
      case TypeLiteral(members) =>
        if steps[0].Member? && FindProperty(members, steps[0].name).Some? {
          MissingBelow(w, file, FindProperty(members, steps[0].name).value, steps, seen, fuel, n);
        }
      case Parenthesized(inner) => MissingNode(w, file, inner, steps, seen, fuel, n);
      case Intersection(first, others) => MissingBranches(w, file, node, first, others, steps, seen, fuel, n);
      case Union(first, others) => MissingBranches(w, file, node, first, others, steps, seen, fuel, n);
      case ArrayOf(element) =>
        if steps[0].Element? {
          MissingNode(w, file, element, steps[1..], seen, fuel, n);
        }
      case Readonly(inner) => MissingNode(w, file, inner, steps, seen, fuel, n);
      case IndexedAccess(target, key) =>
        if key.Some? {
          MissingNode(w, file, target, [Member(key.value)] + steps, seen, fuel, n);
        }
      case Reference(name, qualified, args) =>
        if name in PASSTHROUGH_WRAPPERS && args != [] {
          MissingNode(w, file, args[0], steps, seen, fuel, n);
        } else if name in ARRAY_NAMES && args != [] {
          if steps[0].Element? {
            MissingNode(w, file, args[0], steps[1..], seen, fuel, n);
          }
        } else if !qualified && Resolve(w, file, name).Some? {
          MissingDecl(w, Resolve(w, file, name).value, steps, seen, fuel, n);
        }
      case Other(_) =>
    }
  }

  lemma {:induction false} MissingBelow(w: World, file: string, property: TypeMember, steps: seq<Step>, seen: set<Key>,
                                        fuel: nat, n: nat)
    requires property.Property? && steps != []
    ensures var r := LookupProperty(w, file, property, steps, seen, fuel);
            r.Done? && r.result == Missing ==> MetOnce(EnteredBelow(w, file, property, steps, n), seen, r.seen)
    decreases fuel, 1, property
  {
    if |steps| > 1 && property.declared.Some? {
      MissingNode(w, file, property.declared.value, steps[1..], seen, fuel, n);
    }
  }

  lemma {:induction false} MissingBranches(w: World, file: string, node: TypeNode, first: TypeNode,
                                           others: seq<TypeNode>, steps: seq<Step>, seen: set<Key>, fuel: nat, n: nat)
    requires node == Union(first, others) || node == Intersection(first, others)
    requires steps != []
    ensures var r := LookupNode(w, file, node, steps, seen, fuel);
            r.Done? && r.result == Missing ==> MetOnce(Entered(w, file, node, steps, n), seen, r.seen)
    decreases fuel, 1, node, 0
  {
    hide MetOnce;
    var r := LookupNode(w, file, node, steps, seen, fuel);
    if r.Done? && r.result == Missing {
      var head := LookupNode(w, file, first, steps, seen, fuel);
      var tail := LookupParts(w, file, others, steps, head.seen, fuel);
      AllMissing(head.result, tail.results);
      MissingNode(w, file, first, steps, seen, fuel, n);
      MissingParts(w, file, others, steps, head.seen, fuel, n);
      MetTogether(Entered(w, file, first, steps, n), EnteredByParts(w, file, others, steps, n), seen, head.seen,
          tail.seen);
    }
  }

  lemma AllMissing(one: PathLookup, more: seq<PathLookup>)
    ensures Combine([one] + more) == Missing || Agree([one] + more) == Missing ==>
              one == Missing && forall r | r in more :: r == Missing
  {
    assert one in [one] + more && forall r | r in more :: r in [one] + more;
  }

  lemma {:induction false} MissingParts(w: World, file: string, parts: seq<TypeNode>, steps: seq<Step>, seen: set<Key>,
                                        fuel: nat, n: nat)
    ensures var r := LookupParts(w, file, parts, steps, seen, fuel);
            r.DoneParts? && (forall x | x in r.results :: x == Missing) ==>
              MetOnce(EnteredByParts(w, file, parts, steps, n), seen, r.seen)
    decreases fuel, 1, parts
  {
    var r := LookupParts(w, file, parts, steps, seen, fuel);
    if parts != [] && r.DoneParts? && forall x | x in r.results :: x == Missing {
      var one := LookupNode(w, file, parts[0], steps, seen, fuel);
      assert one.result in r.results && forall x | x in r.results[1..] :: x in r.results;
      MissingNode(w, file, parts[0], steps, seen, fuel, n);
      MissingParts(w, file, parts[1..], steps, one.seen, fuel, n);
      MetTogether(Entered(w, file, parts[0], steps, n), EnteredByParts(w, file, parts[1..], steps, n), seen, one.seen,
          r.seen);
    }
  }

  lemma {:induction false} MissingDecl(w: World, id: DeclId, steps: seq<Step>, seen: set<Key>, fuel: nat, n: nat)
    requires id in w.decls
    ensures var r := LookupDecl(w, id, steps, seen, fuel);
            r.Done? && r.result == Missing ==> MetOnce(EnteredByDecl(w, id, steps, n), seen, r.seen)
    decreases fuel, 0, if n == 0 then 1 else 0
  {
    var r := LookupDecl(w, id, steps, seen, fuel);
    if r.Done? && r.result == Missing {
      var key := (id, |steps|);
      var seen' := seen + {key};
      if n > 0 {
        assert MetOnce([key], seen, seen');
        hide MetOnce;
        match w.decls[id]
        case Alias(file, body) =>
          MissingNode(w, file, body, steps, seen', fuel - 1, n - 1);
          MetTogether([key], Entered(w, file, body, steps, n - 1), seen, seen', r.seen);
        case Interface(file, members, bases) =>
          var property := FindProperty(members, steps[0].name);
          if property.Some? {
            MissingBelow(w, file, property.value, steps, seen', fuel - 1, n - 1);
            MetTogether([key], EnteredBelow(w, file, property.value, steps, n - 1), seen, seen', r.seen);
          } else {
            MissingBases(w, file, bases, steps, seen', fuel - 1, n - 1);
            MetTogether([key], EnteredByBases(w, file, bases, steps, n - 1), seen, seen', r.seen);
          }
      } else {
        MissingDecl(w, id, steps, seen, fuel, 1);
      }
    }
  }

  lemma {:induction false} MissingBases(w: World, file: string, bases: seq<Base>, steps: seq<Step>, seen: set<Key>,
                                        fuel: nat, n: nat)
    ensures var r := LookupBases(w, file, bases, steps, seen, fuel);
            r.DoneParts? && (forall x | x in r.results :: x == Missing) ==>
              MetOnce(EnteredByBases(w, file, bases, steps, n), seen, r.seen)
    decreases fuel, 1, bases
  {
    var r := LookupBases(w, file, bases, steps, seen, fuel);
    if bases != [] && r.DoneParts? && forall x | x in r.results :: x == Missing {
      var one := LookupBase(w, file, bases[0], steps, seen, fuel);
      assert one.result in r.results && forall x | x in r.results[1..] :: x in r.results;
      MissingDecl(w, Resolve(w, file, bases[0].name).value, steps, seen, fuel, n);
      MissingBases(w, file, bases[1..], steps, one.seen, fuel, n);
      MetTogether(EnteredByBase(w, file, bases[0], steps, n), EnteredByBases(w, file, bases[1..], steps, n), seen,
          one.seen, r.seen);
    }
  }

  // ---------------------------------------------------------------- the theorems

  /** Missing is answered exactly when the path is absent whatever lies out of reach and no key is met twice. */
  lemma MissingIff(w: World, id: DeclId, steps: seq<Step>, fuel: nat)
    requires id in w.decls && LookupDecl(w, id, steps, {}, fuel).Done?
    ensures LookupDecl(w, id, steps, {}, fuel).result == Missing <==>
            EntersOnce(w, id, steps, fuel + 1) && forall beyond: Completion :: AbsentDecl(w, beyond, id, steps)
    ensures LookupDecl(w, id, steps, {}, fuel).result == Missing ==> forall n: nat :: EntersOnce(w, id, steps, n)
  {
    hide LookupDecl, EnteredByDecl, AbsentDecl, PresentDecl, Distinct;
    if LookupDecl(w, id, steps, {}, fuel).result == Missing {
      forall n: nat ensures EntersOnce(w, id, steps, n) {
        MissingDecl(w, id, steps, {}, fuel, n);
      }
      forall beyond: Completion ensures AbsentDecl(w, beyond, id, steps) {
        LookupIsSound(w, beyond, id, steps, {}, fuel);
      }
    } else if EntersOnce(w, id, steps, fuel + 1) {
      DeclExact(w, id, steps, {}, fuel);
    }
  }

  /** Where no key is met twice, found is answered exactly when the path is present whatever lies out of reach. */
  lemma FoundIff(w: World, id: DeclId, steps: seq<Step>, fuel: nat)
    requires id in w.decls && LookupDecl(w, id, steps, {}, fuel).Done? && EntersOnce(w, id, steps, fuel + 1)
    ensures LookupDecl(w, id, steps, {}, fuel).result == Found <==>
            forall beyond: Completion :: PresentDecl(w, beyond, id, steps)
  {
    hide LookupDecl, EnteredByDecl, AbsentDecl, PresentDecl;
    if LookupDecl(w, id, steps, {}, fuel).result == Found {
      forall beyond: Completion ensures PresentDecl(w, beyond, id, steps) {
        LookupIsSound(w, beyond, id, steps, {}, fuel);
      }
    } else {
      DeclExact(w, id, steps, {}, fuel);
    }
  }

  // ---------------------------------------------------------------- what a key met twice hides

  /** `interface Both extends Left, Right`, where `Left` and `Right` both extend an empty interface. */
  ghost predicate IsDiamond(w: World) {
    && {"Empty", "Left", "Right", "Both"} <= w.decls.Keys
    && w.decls["Empty"] == Interface("a.ts", [], [])
    && w.decls["Left"] == w.decls["Right"] == Interface("a.ts", [], [NamedBase("Empty")])
    && w.decls["Both"] == Interface("a.ts", [], [NamedBase("Left"), NamedBase("Right")])
    && Resolve(w, "a.ts", "Left") == Some("Left") && Resolve(w, "a.ts", "Right") == Some("Right")
    && Resolve(w, "a.ts", "Empty") == Some("Empty")
  }

  /** Shared heritage hides that a name is absent: the shared base is met twice. */
  lemma DiamondHidesAbsence(w: World, name: string, fuel: nat)
    requires IsDiamond(w) && fuel >= 3 && LookupDecl(w, "Both", [Member(name)], {}, fuel).Done?
    ensures LookupDecl(w, "Both", [Member(name)], {}, fuel).result == Unknown
    ensures forall beyond: Completion :: AbsentDecl(w, beyond, "Both", [Member(name)])
  {
    hide LookupDecl;
    var steps := [Member(name)];
    forall beyond: Completion ensures AbsentDecl(w, beyond, "Both", steps) {
      DiamondLacks(w, name, beyond);
    }
    BothEnters(w, name, fuel + 1);
    var keys := EnteredByDecl(w, "Both", steps, fuel + 1);
    assert keys[2] == keys[4];
    var beyond: Completion := NOWHERE;
    LookupIsSound(w, beyond, "Both", steps, {}, fuel);
    MissingIff(w, "Both", steps, fuel);
  }

  lemma SideEnters(w: World, side: DeclId, name: string, n: nat)
    requires IsDiamond(w) && (side == "Left" || side == "Right") && n >= 2
    ensures EnteredByDecl(w, side, [Member(name)], n) == [(side, 1), ("Empty", 1)]
  {
    var bases := [NamedBase("Empty")];
    assert bases[1..] == [] && FindProperty([], name) == None;
    assert EnteredByDecl(w, "Empty", [Member(name)], n - 1) == [("Empty", 1)];
    assert EnteredByBase(w, "a.ts", bases[0], [Member(name)], n - 1) == [("Empty", 1)];
    assert EnteredByBases(w, "a.ts", bases, [Member(name)], n - 1) == [("Empty", 1)];
  }

  lemma BothEnters(w: World, name: string, n: nat)
    requires IsDiamond(w) && n >= 3
    ensures EnteredByDecl(w, "Both", [Member(name)], n) ==
            [("Both", 1), ("Left", 1), ("Empty", 1), ("Right", 1), ("Empty", 1)]
  {
    var bases := [NamedBase("Left"), NamedBase("Right")];
    assert bases[1..] == [NamedBase("Right")] && bases[1..][1..] == [];
    SideEnters(w, "Left", name, n - 1);
    SideEnters(w, "Right", name, n - 1);
    assert EnteredByBases(w, "a.ts", bases[1..], [Member(name)], n - 1) == [("Right", 1), ("Empty", 1)];
    assert EnteredByBases(w, "a.ts", bases, [Member(name)], n - 1) ==
           [("Left", 1), ("Empty", 1), ("Right", 1), ("Empty", 1)];
  }

  lemma DiamondLacks(w: World, name: string, beyond: Completion)
    requires IsDiamond(w)
    ensures AbsentDecl(w, beyond, "Both", [Member(name)])
  {
    var q, steps := Reading(false, beyond), [Member(name)];
    assert FindProperty([], name) == None;
    forall n: nat ensures !HasDecl(w, q, "Both", steps, n) {
      forall m: nat ensures !HasDecl(w, q, "Empty", steps, m) {
      }
      forall side: DeclId, m: nat | side == "Left" || side == "Right" ensures !HasDecl(w, q, side, steps, m) {
        assert m > 0 ==> !HasDecl(w, q, "Empty", steps, m - 1);
        assert m > 0 ==> !HasBase(w, q, "a.ts", NamedBase("Empty"), steps, m - 1);
      }
      assert n > 0 ==> !HasDecl(w, q, "Left", steps, n - 1) && !HasDecl(w, q, "Right", steps, n - 1);
      assert n > 0 ==> forall i | 0 <= i < 2 :: !HasBase(w, q, "a.ts", w.decls["Both"].bases[i], steps, n - 1);
    }
  }
}
