/** Definite answers of the lookup are right, whatever keys were seen before and however much fuel was given. */
module ConfigSoundness {
  import opened Results
  import opened ConfigTypes
  import opened ConfigPresence

  // ---------------------------------------------------------------- combining parts

  ghost predicate PartsRight(w: World, beyond: Completion, file: string, parts: seq<TypeNode>, steps: seq<Step>,
                             results: seq<PathLookup>) {
    && |results| == |parts|
    && forall i | 0 <= i < |parts| ::
         && (results[i] == Found ==> Present(w, beyond, file, parts[i], steps))
         && (results[i] == Missing ==> Absent(w, beyond, file, parts[i], steps))
  }

  lemma {:induction false} CommonDepth(w: World, beyond: Completion, file: string, parts: seq<TypeNode>, steps: seq<Step>)
    returns (n: nat)
    requires forall i | 0 <= i < |parts| :: Present(w, beyond, file, parts[i], steps)
    ensures forall i | 0 <= i < |parts| :: Has(w, Reading(true, beyond), file, parts[i], steps, n)
  {
    hide Has;
    n := 0;
    for k := 0 to |parts|
      invariant forall i | 0 <= i < k :: Has(w, Reading(true, beyond), file, parts[i], steps, n)
    {
      var m: nat :| Has(w, Reading(true, beyond), file, parts[k], steps, m);
      var deeper := if n < m then m else n;
      HasMonotone(w, Reading(true, beyond), file, parts[k], steps, m, deeper);
      forall i | 0 <= i < k ensures Has(w, Reading(true, beyond), file, parts[i], steps, deeper) {
        HasMonotone(w, Reading(true, beyond), file, parts[i], steps, n, deeper);
      }
      n := deeper;
    }
  }

  lemma UnionRight(w: World, beyond: Completion, file: string, first: TypeNode, others: seq<TypeNode>, steps: seq<Step>,
                   results: seq<PathLookup>)
    requires steps != [] && PartsRight(w, beyond, file, [first] + others, steps, results)
    ensures Agree(results) == Found ==> Present(w, beyond, file, Union(first, others), steps)
    ensures Agree(results) == Missing ==> Absent(w, beyond, file, Union(first, others), steps)
  {
    var parts := [first] + others;
    if Agree(results) == Found {
      forall i | 0 <= i < |parts| ensures Present(w, beyond, file, parts[i], steps) {
        assert results[i] in results;
      }
      var n := CommonDepth(w, beyond, file, parts, steps);
      assert Has(w, Reading(true, beyond), file, parts[0], steps, n);
      forall i | 0 <= i < |others| ensures Has(w, Reading(true, beyond), file, others[i], steps, n) {
        assert others[i] == parts[i + 1];
      }
      assert Has(w, Reading(true, beyond), file, Union(first, others), steps, n);
    }
    if Agree(results) == Missing {
      forall n: nat ensures !Has(w, Reading(false, beyond), file, Union(first, others), steps, n) {
        NoPartHas(w, beyond, file, first, others, steps, results, n);
      }
    }
  }

  lemma NoPartHas(w: World, beyond: Completion, file: string, first: TypeNode, others: seq<TypeNode>, steps: seq<Step>,
                  results: seq<PathLookup>, n: nat)
    requires PartsRight(w, beyond, file, [first] + others, steps, results)
    requires forall r | r in results :: r == Missing
    ensures !Has(w, Reading(false, beyond), file, first, steps, n)
    ensures forall i | 0 <= i < |others| :: !Has(w, Reading(false, beyond), file, others[i], steps, n)
  {
    hide Has;
    var parts := [first] + others;
    forall i | 0 <= i < |parts| ensures !Has(w, Reading(false, beyond), file, parts[i], steps, n) {
      assert results[i] in results;
      assert Absent(w, beyond, file, parts[i], steps);
    }
    assert parts[0] == first;
    assert forall i | 0 <= i < |others| :: others[i] == parts[i + 1];
  }

  lemma IntersectionRight(w: World, beyond: Completion, file: string, first: TypeNode, others: seq<TypeNode>,
                          steps: seq<Step>, results: seq<PathLookup>)
    requires steps != [] && PartsRight(w, beyond, file, [first] + others, steps, results)
    ensures Combine(results) == Found ==> Present(w, beyond, file, Intersection(first, others), steps)
    ensures Combine(results) == Missing ==> Absent(w, beyond, file, Intersection(first, others), steps)
  {
    var parts := [first] + others;
    if Combine(results) == Found {
      var i :| 0 <= i < |results| && results[i] == Found;
      assert Present(w, beyond, file, parts[i], steps);
      var n: nat :| Has(w, Reading(true, beyond), file, parts[i], steps, n);
      assert i > 0 ==> others[i - 1] == parts[i];
      assert Has(w, Reading(true, beyond), file, Intersection(first, others), steps, n);
    }
    if Combine(results) == Missing {
      forall n: nat ensures !Has(w, Reading(false, beyond), file, Intersection(first, others), steps, n) {
        NoPartHas(w, beyond, file, first, others, steps, results, n);
      }
    }
  }

  // ---------------------------------------------------------------- the lookup, case by case

  lemma {:induction false} PropertySound(w: World, beyond: Completion, file: string, property: TypeMember,
                                         steps: seq<Step>,
                                         seen: set<Key>, fuel: nat)
    requires property.Property? && steps != []
    ensures var r := LookupProperty(w, file, property, steps, seen, fuel);
            && (r.Done? && r.result == Found ==> PresentBelow(w, beyond, file, property, steps))
            && (r.Done? && r.result == Missing ==> AbsentBelow(w, beyond, file, property, steps))
    decreases fuel, 1, property
  {
    if |steps| == 1 {
      assert HasBelow(w, Reading(true, beyond), file, property, steps, 0);
    } else if property.declared.Some? {
      var t := property.declared.value;
      NodeSound(w, beyond, file, t, steps[1..], seen, fuel);
      if n: nat :| Has(w, Reading(true, beyond), file, t, steps[1..], n) {
        assert HasBelow(w, Reading(true, beyond), file, property, steps, n);
      }
    }
  }

  /** A definite answer about a type is right. */
  ghost predicate Right(w: World, beyond: Completion, file: string, node: TypeNode, steps: seq<Step>, r: Outcome) {
    && (r.Done? && r.result == Found ==> Present(w, beyond, file, node, steps))
    && (r.Done? && r.result == Missing ==> Absent(w, beyond, file, node, steps))
  }

  lemma {:induction false} NodeSound(w: World, beyond: Completion, file: string, node: TypeNode, steps: seq<Step>,
                                     seen: set<Key>, fuel: nat)
    ensures var r := LookupNode(w, file, node, steps, seen, fuel);
            && (r.Done? && r.result == Found ==> Present(w, beyond, file, node, steps))
            && (r.Done? && r.result == Missing ==> Absent(w, beyond, file, node, steps))
    decreases fuel, 1, node, 2
  {
    assert Right(w, beyond, file, node, steps, LookupNode(w, file, node, steps, seen, fuel)) by {
      CaseSound(w, beyond, file, node, steps, seen, fuel);
    }
  }

  lemma {:induction false} CaseSound(w: World, beyond: Completion, file: string, node: TypeNode, steps: seq<Step>,
                                     seen: set<Key>, fuel: nat)
    ensures Right(w, beyond, file, node, steps, LookupNode(w, file, node, steps, seen, fuel))
    decreases fuel, 1, node, 1
  {
    hide Right;
    if steps == [] {
      EmptySound(w, beyond, file, node, seen, fuel);
    } else {
      match node
      case TypeLiteral(members) => LiteralSound(w, beyond, file, node, members, steps, seen, fuel);
      case Parenthesized(inner) => SameSound(w, beyond, file, node, steps, file, inner, steps, seen, fuel);
      case Intersection(first, others) => BranchesSound(w, beyond, file, node, first, others, steps, seen, fuel);
      case Union(first, others) => BranchesSound(w, beyond, file, node, first, others, steps, seen, fuel);
      case ArrayOf(element) =>
        if steps[0].Element? {
          SameSound(w, beyond, file, node, steps, file, element, steps[1..], seen, fuel);
        } else {
          UnknownSound(w, beyond, file, node, steps, LookupNode(w, file, node, steps, seen, fuel));
        }
      case Readonly(inner) => SameSound(w, beyond, file, node, steps, file, inner, steps, seen, fuel);
      case IndexedAccess(target, key) =>
        if key.Some? {
          SameSound(w, beyond, file, node, steps, file, target, [Member(key.value)] + steps, seen, fuel);
        } else {
          UnknownSound(w, beyond, file, node, steps, LookupNode(w, file, node, steps, seen, fuel));
        }
      case Reference(name, qualified, args) =>
        if name in PASSTHROUGH_WRAPPERS && args != [] {
          SameSound(w, beyond, file, node, steps, file, args[0], steps, seen, fuel);
        } else if name in ARRAY_NAMES && args != [] && steps[0].Element? {
          SameSound(w, beyond, file, node, steps, file, args[0], steps[1..], seen, fuel);
        } else if (name in ARRAY_NAMES && args != []) || qualified || Resolve(w, file, name).None? {
          UnknownSound(w, beyond, file, node, steps, LookupNode(w, file, node, steps, seen, fuel));
        } else {
          NameSound(w, beyond, file, node, steps, seen, fuel);
        }
      case Other(_) => UnknownSound(w, beyond, file, node, steps, LookupNode(w, file, node, steps, seen, fuel));
    }
  }

  lemma UnknownSound(w: World, beyond: Completion, file: string, node: TypeNode, steps: seq<Step>, r: Outcome)
    requires r.Done? && r.result == Unknown
    ensures Right(w, beyond, file, node, steps, r)
  {
  }

  lemma EmptySound(w: World, beyond: Completion, file: string, node: TypeNode, seen: set<Key>, fuel: nat)
    ensures Right(w, beyond, file, node, [], LookupNode(w, file, node, [], seen, fuel))
  {
    assert Has(w, Reading(true, beyond), file, node, [], 0);
  }

  lemma {:induction false} LiteralSound(w: World, beyond: Completion, file: string, node: TypeNode, members: seq<TypeMember>,
                                        steps: seq<Step>, seen: set<Key>, fuel: nat)
    requires node == TypeLiteral(members) && steps != []
    ensures Right(w, beyond, file, node, steps, LookupNode(w, file, node, steps, seen, fuel))
    decreases fuel, 1, node, 0
  {
    if steps[0].Member? {
      var property := FindProperty(members, steps[0].name);
      if property.Some? {
        PropertySound(w, beyond, file, property.value, steps, seen, fuel);
        if n: nat :| HasBelow(w, Reading(true, beyond), file, property.value, steps, n) {
          assert Has(w, Reading(true, beyond), file, node, steps, n);
        }
        forall n: nat | AbsentBelow(w, beyond, file, property.value, steps)
          ensures !Has(w, Reading(false, beyond), file, node, steps, n)
        {
          assert !HasBelow(w, Reading(false, beyond), file, property.value, steps, n);
        }
      }
    }
  }

  lemma {:induction false} BranchesSound(w: World, beyond: Completion, file: string, node: TypeNode, first: TypeNode,
                                         others: seq<TypeNode>, steps: seq<Step>, seen: set<Key>, fuel: nat)
    requires node == Union(first, others) || node == Intersection(first, others)
    requires steps != []
    ensures Right(w, beyond, file, node, steps, LookupNode(w, file, node, steps, seen, fuel))
    decreases fuel, 1, node, 0
  {
    hide Present, Absent, Combine, Agree;
    var head := LookupNode(w, file, first, steps, seen, fuel);
    NodeSound(w, beyond, file, first, steps, seen, fuel);
    if head.Done? {
      var tail := LookupParts(w, file, others, steps, head.seen, fuel);
      PartsSound(w, beyond, file, others, steps, head.seen, fuel);
      if tail.DoneParts? {
        var results := [head.result] + tail.results;
        if node.Union? {
          UnionRight(w, beyond, file, first, others, steps, results);
        } else {
          IntersectionRight(w, beyond, file, first, others, steps, results);
        }
      }
    }
  }

  lemma {:induction false} NameSound(w: World, beyond: Completion, file: string, node: TypeNode, steps: seq<Step>,
                                     seen: set<Key>, fuel: nat)
    requires node.Reference? && !node.qualified && Resolve(w, file, node.name).Some? && steps != []
    requires node.args == [] || (node.name !in PASSTHROUGH_WRAPPERS && node.name !in ARRAY_NAMES)
    ensures Right(w, beyond, file, node, steps, LookupNode(w, file, node, steps, seen, fuel))
    decreases fuel, 1, node, 0
  {
    var id := Resolve(w, file, node.name).value;
    DeclSound(w, beyond, id, steps, seen, fuel);
    if n: nat :| HasDecl(w, Reading(true, beyond), id, steps, n) {
      assert Has(w, Reading(true, beyond), file, node, steps, n);
    }
    forall n: nat | AbsentDecl(w, beyond, id, steps) ensures !Has(w, Reading(false, beyond), file, node, steps, n) {
      assert !HasDecl(w, Reading(false, beyond), id, steps, n);
    }
  }

  /** A node that only passes the lookup on to another is right when the other is. */
  lemma {:induction false} SameSound(w: World, beyond: Completion, file: string, node: TypeNode, steps: seq<Step>,
                                     file': string, node': TypeNode, steps': seq<Step>, seen: set<Key>, fuel: nat)
    requires node' < node
    requires LookupNode(w, file, node, steps, seen, fuel) == LookupNode(w, file', node', steps', seen, fuel)
    requires forall every: bool, n: nat ::
              Has(w, Reading(every, beyond), file, node, steps, n) == Has(w, Reading(every, beyond), file', node', steps', n)
    ensures Right(w, beyond, file, node, steps, LookupNode(w, file, node, steps, seen, fuel))
    decreases fuel, 1, node, 0
  {
    hide Has;
    NodeSound(w, beyond, file', node', steps', seen, fuel);
    if n: nat :| Has(w, Reading(true, beyond), file', node', steps', n) {
      assert Has(w, Reading(true, beyond), file, node, steps, n);
    }
  }

  lemma {:induction false} PartsSound(w: World, beyond: Completion, file: string, parts: seq<TypeNode>, steps: seq<Step>,
                                      seen: set<Key>, fuel: nat)
    ensures var r := LookupParts(w, file, parts, steps, seen, fuel);
            r.DoneParts? ==> PartsRight(w, beyond, file, parts, steps, r.results)
    decreases fuel, 1, parts
  {
    hide Has;
    var r := LookupParts(w, file, parts, steps, seen, fuel);
    if parts != [] && r.DoneParts? {
      var one := LookupNode(w, file, parts[0], steps, seen, fuel);
      NodeSound(w, beyond, file, parts[0], steps, seen, fuel);
      PartsSound(w, beyond, file, parts[1..], steps, one.seen, fuel);
      forall i | 0 <= i < |parts|
        ensures r.results[i] == Found ==> Present(w, beyond, file, parts[i], steps)
        ensures r.results[i] == Missing ==> Absent(w, beyond, file, parts[i], steps)
      {
        assert i > 0 ==> parts[i] == parts[1..][i - 1];
      }
    }
  }

  lemma {:induction false} DeclSound(w: World, beyond: Completion, id: DeclId, steps: seq<Step>, seen: set<Key>,
                                     fuel: nat)
    requires id in w.decls
    ensures var r := LookupDecl(w, id, steps, seen, fuel);
            && (r.Done? && r.result == Found ==> PresentDecl(w, beyond, id, steps))
            && (r.Done? && r.result == Missing ==> AbsentDecl(w, beyond, id, steps))
    decreases fuel, 0, 0
  {
    var r := LookupDecl(w, id, steps, seen, fuel);
    if steps == [] {
      assert HasDecl(w, Reading(true, beyond), id, steps, 0);
    } else if !w.decls[id].Enum? && (id, |steps|) !in seen && fuel > 0 {
      var seen' := seen + {(id, |steps|)};
      match w.decls[id]
      case Alias(file, body) =>
        NodeSound(w, beyond, file, body, steps, seen', fuel - 1);
        if n: nat :| Has(w, Reading(true, beyond), file, body, steps, n) {
          assert HasDecl(w, Reading(true, beyond), id, steps, n + 1);
        }
      case Interface(file, members, bases) =>
        if steps[0].Member? {
          var property := FindProperty(members, steps[0].name);
          if property.Some? {
            PropertySound(w, beyond, file, property.value, steps, seen', fuel - 1);
            if n: nat :| HasBelow(w, Reading(true, beyond), file, property.value, steps, n) {
              assert HasDecl(w, Reading(true, beyond), id, steps, n + 1);
            }
          } else if bases != [] {
            BasesSound(w, beyond, file, bases, steps, seen', fuel - 1);
            InterfaceRight(w, beyond, id, file, members, bases, steps, LookupBases(w, file, bases, steps, seen',
                fuel - 1));
          }
        }
    }
  }

  ghost predicate BasesRight(w: World, beyond: Completion, file: string, bases: seq<Base>, steps: seq<Step>,
                             results: seq<PathLookup>) {
    && |results| == |bases|
    && forall i | 0 <= i < |bases| ::
         && (results[i] == Found ==> PresentBase(w, beyond, file, bases[i], steps))
         && (results[i] == Missing ==> AbsentBase(w, beyond, file, bases[i], steps))
  }

  lemma InterfaceRight(w: World, beyond: Completion, id: DeclId, file: string, members: seq<TypeMember>, bases: seq<Base>,
                       steps: seq<Step>, parts: Outcomes)
    requires id in w.decls && w.decls[id] == Interface(file, members, bases)
    requires steps != [] && steps[0].Member? && FindProperty(members, steps[0].name) == None
    requires parts.DoneParts? ==> BasesRight(w, beyond, file, bases, steps, parts.results)
    ensures parts.DoneParts? && Combine(parts.results) == Found ==> PresentDecl(w, beyond, id, steps)
    ensures parts.DoneParts? && Combine(parts.results) == Missing ==> AbsentDecl(w, beyond, id, steps)
  {
    hide HasBase;
    if parts.DoneParts? {
      var results := parts.results;
      if Combine(results) == Found {
        var i :| 0 <= i < |results| && results[i] == Found;
        var n: nat :| HasBase(w, Reading(true, beyond), file, bases[i], steps, n);
        assert HasDecl(w, Reading(true, beyond), id, steps, n + 1);
      } else if Combine(results) == Missing {
        forall n: nat ensures !HasDecl(w, Reading(false, beyond), id, steps, n) {
          forall i | 0 <= i < |bases| && n > 0 ensures !HasBase(w, Reading(false, beyond), file, bases[i], steps, n - 1) {
            assert results[i] in results;
            assert AbsentBase(w, beyond, file, bases[i], steps);
          }
        }
      }
    }
  }

  lemma {:induction false} BasesSound(w: World, beyond: Completion, file: string, bases: seq<Base>, steps: seq<Step>,
                                      seen: set<Key>, fuel: nat)
    ensures var r := LookupBases(w, file, bases, steps, seen, fuel);
            r.DoneParts? ==> BasesRight(w, beyond, file, bases, steps, r.results)
    decreases fuel, 1, bases
  {
    hide HasBase;
    var r := LookupBases(w, file, bases, steps, seen, fuel);
    if bases != [] && r.DoneParts? {
      var one := LookupBase(w, file, bases[0], steps, seen, fuel);
      BaseSound(w, beyond, file, bases[0], steps, seen, fuel);
      BasesSound(w, beyond, file, bases[1..], steps, one.seen, fuel);
      forall i | 0 <= i < |bases|
        ensures r.results[i] == Found ==> PresentBase(w, beyond, file, bases[i], steps)
        ensures r.results[i] == Missing ==> AbsentBase(w, beyond, file, bases[i], steps)
      {
        assert i > 0 ==> bases[i] == bases[1..][i - 1];
      }
    }
  }

  lemma {:induction false} BaseSound(w: World, beyond: Completion, file: string, base: Base, steps: seq<Step>,
                                     seen: set<Key>, fuel: nat)
    ensures var r := LookupBase(w, file, base, steps, seen, fuel);
            && (r.Done? && r.result == Found ==> PresentBase(w, beyond, file, base, steps))
            && (r.Done? && r.result == Missing ==> AbsentBase(w, beyond, file, base, steps))
    decreases fuel, 0, 1
  {
    if base.NamedBase? && Resolve(w, file, base.name).Some? {
      var id := Resolve(w, file, base.name).value;
      DeclSound(w, beyond, id, steps, seen, fuel);
      if n: nat :| HasDecl(w, Reading(true, beyond), id, steps, n) {
        assert HasBase(w, Reading(true, beyond), file, base, steps, n);
      }
    }
  }

  // ---------------------------------------------------------------- the theorems

  /** `found` means present and `missing` means absent, for every completion of what the lookup cannot see. */
  lemma LookupIsSound(w: World, beyond: Completion, id: DeclId, steps: seq<Step>, seen: set<Key>, fuel: nat)
    requires id in w.decls
    ensures var r := LookupDecl(w, id, steps, seen, fuel);
            && (r.Done? && r.result == Found ==> PresentDecl(w, beyond, id, steps) && !AbsentDecl(w, beyond, id, steps))
            && (r.Done? && r.result == Missing ==> AbsentDecl(w, beyond, id, steps) && !PresentDecl(w, beyond, id, steps))
  {
    DeclSound(w, beyond, id, steps, seen, fuel);
    if n: nat :| HasDecl(w, Reading(true, beyond), id, steps, n) {
      EveryIsSomeDecl(w, beyond, id, steps, n);
    }
  }

  /** Two lookups of one path never answer found and missing, whatever each had seen before. */
  lemma AnswersNeverClash(w: World, id: DeclId, steps: seq<Step>, seen1: set<Key>, fuel1: nat, seen2: set<Key>,
                          fuel2: nat)
    requires id in w.decls
    ensures !(&& LookupDecl(w, id, steps, seen1, fuel1).Done? && LookupDecl(w, id, steps, seen1, fuel1).result == Found
              && LookupDecl(w, id, steps, seen2, fuel2).Done? && LookupDecl(w, id, steps, seen2, fuel2).result == Missing)
  {
    var beyond: Completion := (place, path) => false;
    LookupIsSound(w, beyond, id, steps, seen1, fuel1);
    LookupIsSound(w, beyond, id, steps, seen2, fuel2);
  }

  ghost predicate SameParts(a: seq<TypeNode>, b: seq<TypeNode>) {
    forall t :: t in a <==> t in b
  }

  /** Presence in a union or intersection does not depend on the order of its parts. */
  lemma PartOrderIrrelevant(w: World, q: Reading, file: string, first: TypeNode, others: seq<TypeNode>,
                            first': TypeNode, others': seq<TypeNode>, steps: seq<Step>, n: nat)
    requires SameParts([first] + others, [first'] + others')
    ensures Has(w, q, file, Union(first, others), steps, n) == Has(w, q, file, Union(first', others'), steps, n)
    ensures Has(w, q, file, Intersection(first, others), steps, n) ==
            Has(w, q, file, Intersection(first', others'), steps, n)
  {
    forall t | t in [first] + others ensures t in [first'] + others' {
    }
    HasInParts(w, q, file, first, others, steps, n);
    HasInParts(w, q, file, first', others', steps, n);
  }

  lemma HasInParts(w: World, q: Reading, file: string, first: TypeNode, others: seq<TypeNode>, steps: seq<Step>, n: nat)
    ensures Has(w, q, file, Intersection(first, others), steps, n) <==>
            steps == [] || exists t :: t in [first] + others && Has(w, q, file, t, steps, n)
    ensures Has(w, q, file, Union(first, others), steps, n) <==>
            steps == [] || (if q.every then forall t | t in [first] + others :: Has(w, q, file, t, steps, n)
                            else exists t :: t in [first] + others && Has(w, q, file, t, steps, n))
  {
    assert first in [first] + others;
    assert forall i | 0 <= i < |others| :: others[i] in [first] + others;
    assert forall t | t in [first] + others :: t == first || t in others;
  }
}
