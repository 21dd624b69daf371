/**
 * When the lookup terminates. Entering a declaration is guarded by the seen keys, and an indexed
 * access is the only step that lengthens the remaining path; so a bound on how much a walk can
 * lengthen it makes the set of possible keys finite.
 */
module ConfigTermination {
  import opened Results
  import opened ConfigTypes
  import opened Sets

  /** For each declaration, a bound on the steps a walk entering it may prepend. */
  type Growth = map<DeclId, nat>

  ghost predicate MembersGrow(w: World, g: Growth, file: string, members: seq<TypeMember>, extra: nat)
    decreases members
  {
    forall i | 0 <= i < |members| && members[i].Property? && members[i].declared.Some? ::
      Grows(w, g, file, members[i].declared.value, extra + 1)
  }

  /**
   * Walking through the type lengthens the path by at most `extra` steps: an indexed access prepends
   * one, and a property or an element uses one up.
   */
  ghost predicate Grows(w: World, g: Growth, file: string, node: TypeNode, extra: nat)
    decreases node
  {
    match node
    case TypeLiteral(members) => MembersGrow(w, g, file, members, extra)
    case Parenthesized(inner) => Grows(w, g, file, inner, extra)
    case Intersection(first, others) =>
      Grows(w, g, file, first, extra) && forall i | 0 <= i < |others| :: Grows(w, g, file, others[i], extra)
    case Union(first, others) =>
      Grows(w, g, file, first, extra) && forall i | 0 <= i < |others| :: Grows(w, g, file, others[i], extra)
    case ArrayOf(element) => Grows(w, g, file, element, extra + 1)
    case Readonly(inner) => Grows(w, g, file, inner, extra)
    case IndexedAccess(target, key) => key.Some? ==> extra > 0 && Grows(w, g, file, target, extra - 1)
    case Reference(name, qualified, args) =>
      if name in PASSTHROUGH_WRAPPERS && args != [] then Grows(w, g, file, args[0], extra)
      else if name in ARRAY_NAMES && args != [] then Grows(w, g, file, args[0], extra + 1)
      else
        var id := Resolve(w, file, name);
        qualified || id.None? || (id.value in g && g[id.value] <= extra)
    case Other(_) => true
  }

  /** The bounds are consistent: no cycle of declarations prepends more steps than it uses up. */
  ghost predicate Tame(w: World, g: Growth) {
    && g.Keys == w.decls.Keys
    && forall id | id in w.decls ::
         match w.decls[id]
         case Enum(_) => true
         case Alias(file, body) => Grows(w, g, file, body, g[id])
         case Interface(file, members, bases) =>
           && MembersGrow(w, g, file, members, g[id])
           && forall b | b in bases && b.NamedBase? && Resolve(w, file, b.name).Some? ::
                g[Resolve(w, file, b.name).value] <= g[id]
  }

  /** Every key a walk with at most `most` steps can create. */
  ghost function AllKeys(w: World, most: nat): set<Key> {
    set id, k: nat | id in w.decls && 0 <= k <= most :: (id, k)
  }

  ghost predicate Finishes(w: World, most: nat, seen: set<Key>, r: Outcome) {
    r.Done? && seen <= r.seen <= seen + AllKeys(w, most)
  }

  ghost predicate PartsFinish(w: World, most: nat, seen: set<Key>, r: Outcomes) {
    r.DoneParts? && seen <= r.seen <= seen + AllKeys(w, most)
  }

  ghost predicate Enough(w: World, most: nat, seen: set<Key>, fuel: nat) {
    |AllKeys(w, most) - seen| <= fuel
  }

  lemma EnoughLater(w: World, most: nat, seen: set<Key>, later: set<Key>, fuel: nat)
    requires Enough(w, most, seen, fuel) && seen <= later
    ensures Enough(w, most, later, fuel)
  {
    SubsetSize(AllKeys(w, most) - later, AllKeys(w, most) - seen);
  }

  /** Entering a declaration uses up one key, and one unit of fuel. */
  lemma EntryCosts(w: World, most: nat, seen: set<Key>, key: Key, fuel: nat)
    requires key.0 in w.decls && key.1 <= most && key !in seen && Enough(w, most, seen, fuel)
    ensures fuel > 0 && Enough(w, most, seen + {key}, fuel - 1) && key in AllKeys(w, most)
  {
    assert key == (key.0, key.1) && key in AllKeys(w, most) - seen;
    assert AllKeys(w, most) - (seen + {key}) == AllKeys(w, most) - seen - {key};
  }

  lemma FoundProperty(w: World, g: Growth, file: string, members: seq<TypeMember>, name: string, extra: nat)
    requires MembersGrow(w, g, file, members, extra)
    ensures var p := FindProperty(members, name);
            p.Some? && p.value.declared.Some? ==> Grows(w, g, file, p.value.declared.value, extra + 1)
  {
  }

  lemma {:induction false} PropertyFinishes(w: World, g: Growth, file: string, property: TypeMember, steps: seq<Step>,
                                            seen: set<Key>, fuel: nat, extra: nat, most: nat)
    requires property.Property? && steps != [] && Tame(w, g)
    requires property.declared.Some? ==> Grows(w, g, file, property.declared.value, extra + 1)
    requires |steps| + extra <= most && Enough(w, most, seen, fuel)
    ensures Finishes(w, most, seen, LookupProperty(w, file, property, steps, seen, fuel))
    decreases fuel, 1, property
  {
    hide Tame, Grows, AllKeys, Enough;
    if |steps| > 1 && property.declared.Some? {
      NodeFinishes(w, g, file, property.declared.value, steps[1..], seen, fuel, extra + 1, most);
    }
  }

  /** With fuel for every unseen key, the walk through a type ends. */
  lemma {:induction false} NodeFinishes(w: World, g: Growth, file: string, node: TypeNode, steps: seq<Step>,
                                        seen: set<Key>, fuel: nat, extra: nat, most: nat)
    requires Tame(w, g) && Grows(w, g, file, node, extra)
    requires |steps| + extra <= most && Enough(w, most, seen, fuel)
    ensures Finishes(w, most, seen, LookupNode(w, file, node, steps, seen, fuel))
    decreases fuel, 1, node
  {
    hide Tame, AllKeys, Enough;
    if steps != [] {
      match node
      case TypeLiteral(members) =>
        if steps[0].Member? && FindProperty(members, steps[0].name).Some? {
          FoundProperty(w, g, file, members, steps[0].name, extra);
          PropertyFinishes(w, g, file, FindProperty(members, steps[0].name).value, steps, seen, fuel, extra, most);
        }
      case Parenthesized(inner) => NodeFinishes(w, g, file, inner, steps, seen, fuel, extra, most);
      case Intersection(first, others) => AllPartsFinish(w, g, file, node, first, others, steps, seen, fuel, extra, most);
      case Union(first, others) => AllPartsFinish(w, g, file, node, first, others, steps, seen, fuel, extra, most);
      case ArrayOf(element) =>
        if steps[0].Element? {
          NodeFinishes(w, g, file, element, steps[1..], seen, fuel, extra + 1, most);
        }
      case Readonly(inner) => NodeFinishes(w, g, file, inner, steps, seen, fuel, extra, most);
      case IndexedAccess(target, key) =>
        if key.Some? {
          NodeFinishes(w, g, file, target, [Member(key.value)] + steps, seen, fuel, extra - 1, most);
        }
      case Reference(name, qualified, args) =>
        if name in PASSTHROUGH_WRAPPERS && args != [] {
          NodeFinishes(w, g, file, args[0], steps, seen, fuel, extra, most);
        } else if name in ARRAY_NAMES && args != [] {
          if steps[0].Element? {
            NodeFinishes(w, g, file, args[0], steps[1..], seen, fuel, extra + 1, most);
          }
        } else if !qualified && Resolve(w, file, name).Some? {
          DeclFinishes(w, g, Resolve(w, file, name).value, steps, seen, fuel, most);
        }
      case Other(_) =>
    }
  }

  lemma {:induction false} AllPartsFinish(w: World, g: Growth, file: string, node: TypeNode, first: TypeNode,
                                          others: seq<TypeNode>, steps: seq<Step>, seen: set<Key>, fuel: nat,
                                              extra: nat, most: nat)
    requires Tame(w, g) && Grows(w, g, file, first, extra) && forall i | 0 <= i < |others| ::
             Grows(w, g, file, others[i], extra)
    requires node == Union(first, others) || node == Intersection(first, others)
    requires |steps| + extra <= most && Enough(w, most, seen, fuel)
    ensures var head := LookupNode(w, file, first, steps, seen, fuel);
            && Finishes(w, most, seen, head)
            && PartsFinish(w, most, head.seen, LookupParts(w, file, others, steps, head.seen, fuel))
    decreases fuel, 1, node, 0
  {
    hide Tame, AllKeys, Enough, Grows;
    NodeFinishes(w, g, file, first, steps, seen, fuel, extra, most);
    var head := LookupNode(w, file, first, steps, seen, fuel);
    EnoughLater(w, most, seen, head.seen, fuel);
    LookupPartsFinish(w, g, file, others, steps, head.seen, fuel, extra, most);
  }

  lemma {:induction false} LookupPartsFinish(w: World, g: Growth, file: string, parts: seq<TypeNode>, steps: seq<Step>,
                                             seen: set<Key>, fuel: nat, extra: nat, most: nat)
    requires Tame(w, g) && forall i | 0 <= i < |parts| :: Grows(w, g, file, parts[i], extra)
    requires |steps| + extra <= most && Enough(w, most, seen, fuel)
    ensures PartsFinish(w, most, seen, LookupParts(w, file, parts, steps, seen, fuel))
    decreases fuel, 1, parts
  {
    hide Tame, AllKeys, Enough, Grows;
    if parts != [] {
      NodeFinishes(w, g, file, parts[0], steps, seen, fuel, extra, most);
      var one := LookupNode(w, file, parts[0], steps, seen, fuel);
      EnoughLater(w, most, seen, one.seen, fuel);
      LookupPartsFinish(w, g, file, parts[1..], steps, one.seen, fuel, extra, most);
    }
  }

  lemma {:induction false} DeclFinishes(w: World, g: Growth, id: DeclId, steps: seq<Step>, seen: set<Key>, fuel: nat,
                                        most: nat)
    requires id in w.decls && Tame(w, g)
    requires |steps| + g[id] <= most && Enough(w, most, seen, fuel)
    ensures Finishes(w, most, seen, LookupDecl(w, id, steps, seen, fuel))
    decreases fuel, 0, 0
  {
    hide Grows;
    var key := (id, |steps|);
    if steps != [] && !w.decls[id].Enum? && key !in seen {
      var seen' := seen + {key};
      EntryCosts(w, most, seen, key, fuel);
      hide AllKeys, Enough;
      match w.decls[id]
      case Alias(file, body) => NodeFinishes(w, g, file, body, steps, seen', fuel - 1, g[id], most);
      case Interface(file, members, bases) =>
        if steps[0].Member? {
          var property := FindProperty(members, steps[0].name);
          if property.Some? {
            FoundProperty(w, g, file, members, steps[0].name, g[id]);
            PropertyFinishes(w, g, file, property.value, steps, seen', fuel - 1, g[id], most);
          } else if bases != [] {
            BasesFinish(w, g, file, bases, steps, seen', fuel - 1, g[id], most);
          }
        }
    }
  }

  lemma {:induction false} BasesFinish(w: World, g: Growth, file: string, bases: seq<Base>, steps: seq<Step>,
                                       seen: set<Key>, fuel: nat, extra: nat, most: nat)
    requires Tame(w, g) && |steps| + extra <= most && Enough(w, most, seen, fuel)
    requires forall b | b in bases && b.NamedBase? && Resolve(w, file, b.name).Some? ::
               g[Resolve(w, file, b.name).value] <= extra
    ensures PartsFinish(w, most, seen, LookupBases(w, file, bases, steps, seen, fuel))
    decreases fuel, 1, bases
  {
    hide Grows, AllKeys, Enough;
    if bases != [] {
      var one := LookupBase(w, file, bases[0], steps, seen, fuel);
      assert bases[0] in bases;
      if bases[0].NamedBase? && Resolve(w, file, bases[0].name).Some? {
        DeclFinishes(w, g, Resolve(w, file, bases[0].name).value, steps, seen, fuel, most);
      }
      EnoughLater(w, most, seen, one.seen, fuel);
      BasesFinish(w, g, file, bases[1..], steps, one.seen, fuel, extra, most);
    }
  }

  // ---------------------------------------------------------------- fuel never changes an answer

  lemma {:induction false} NodeMoreFuel(w: World, file: string, node: TypeNode, steps: seq<Step>, seen: set<Key>,
                                        fuel: nat, more: nat)
    requires fuel <= more && LookupNode(w, file, node, steps, seen, fuel).Done?
    ensures LookupNode(w, file, node, steps, seen, more) == LookupNode(w, file, node, steps, seen, fuel)
    decreases fuel, 1, node
  {
    if steps != [] {
      match node
      case TypeLiteral(members) =>
        if steps[0].Member? && FindProperty(members, steps[0].name).Some? {
          PropertyMoreFuel(w, file, FindProperty(members, steps[0].name).value, steps, seen, fuel, more);
        }
      case Parenthesized(inner) => NodeMoreFuel(w, file, inner, steps, seen, fuel, more);
      case Intersection(first, others) =>
        NodeMoreFuel(w, file, first, steps, seen, fuel, more);
        PartsMoreFuel(w, file, others, steps, LookupNode(w, file, first, steps, seen, fuel).seen, fuel, more);
      case Union(first, others) =>
        NodeMoreFuel(w, file, first, steps, seen, fuel, more);
        PartsMoreFuel(w, file, others, steps, LookupNode(w, file, first, steps, seen, fuel).seen, fuel, more);
      case ArrayOf(element) =>
        if steps[0].Element? {
          NodeMoreFuel(w, file, element, steps[1..], seen, fuel, more);
        }
      case Readonly(inner) => NodeMoreFuel(w, file, inner, steps, seen, fuel, more);
      case IndexedAccess(target, key) =>
        if key.Some? {
          NodeMoreFuel(w, file, target, [Member(key.value)] + steps, seen, fuel, more);
        }
      case Reference(name, qualified, args) =>
        if name in PASSTHROUGH_WRAPPERS && args != [] {
          NodeMoreFuel(w, file, args[0], steps, seen, fuel, more);
        } else if name in ARRAY_NAMES && args != [] {
          if steps[0].Element? {
            NodeMoreFuel(w, file, args[0], steps[1..], seen, fuel, more);
          }
        } else if !qualified && Resolve(w, file, name).Some? {
          DeclMoreFuel(w, Resolve(w, file, name).value, steps, seen, fuel, more);
        }
      case Other(_) =>
    }
  }

  lemma {:induction false} PropertyMoreFuel(w: World, file: string, property: TypeMember, steps: seq<Step>,
                                            seen: set<Key>, fuel: nat, more: nat)
    requires property.Property? && steps != []
    requires fuel <= more && LookupProperty(w, file, property, steps, seen, fuel).Done?
    ensures LookupProperty(w, file, property, steps, seen, more) == LookupProperty(w, file, property, steps, seen, fuel)
    decreases fuel, 1, property
  {
    if |steps| > 1 && property.declared.Some? {
      NodeMoreFuel(w, file, property.declared.value, steps[1..], seen, fuel, more);
    }
  }

  lemma {:induction false} PartsMoreFuel(w: World, file: string, parts: seq<TypeNode>, steps: seq<Step>,
                                         seen: set<Key>, fuel: nat, more: nat)
    requires fuel <= more && LookupParts(w, file, parts, steps, seen, fuel).DoneParts?
    ensures LookupParts(w, file, parts, steps, seen, more) == LookupParts(w, file, parts, steps, seen, fuel)
    decreases fuel, 1, parts
  {
    if parts != [] {
      NodeMoreFuel(w, file, parts[0], steps, seen, fuel, more);
      PartsMoreFuel(w, file, parts[1..], steps, LookupNode(w, file, parts[0], steps, seen, fuel).seen, fuel, more);
    }
  }

  /** An answer found with some fuel is the answer with any more of it. */
  lemma {:induction false} DeclMoreFuel(w: World, id: DeclId, steps: seq<Step>, seen: set<Key>, fuel: nat, more: nat)
    requires id in w.decls && fuel <= more && LookupDecl(w, id, steps, seen, fuel).Done?
    ensures LookupDecl(w, id, steps, seen, more) == LookupDecl(w, id, steps, seen, fuel)
    decreases fuel, 0, 0
  {
    if steps != [] && !w.decls[id].Enum? && (id, |steps|) !in seen {
      var seen' := seen + {(id, |steps|)};
      match w.decls[id]
      case Alias(file, body) => NodeMoreFuel(w, file, body, steps, seen', fuel - 1, more - 1);
      case Interface(file, members, bases) =>
        if steps[0].Member? {
          var property := FindProperty(members, steps[0].name);
          if property.Some? {
            PropertyMoreFuel(w, file, property.value, steps, seen', fuel - 1, more - 1);
          } else if bases != [] {
            BasesMoreFuel(w, file, bases, steps, seen', fuel - 1, more - 1);
          }
        }
    }
  }

  lemma {:induction false} BasesMoreFuel(w: World, file: string, bases: seq<Base>, steps: seq<Step>, seen: set<Key>,
                                         fuel: nat, more: nat)
    requires fuel <= more && LookupBases(w, file, bases, steps, seen, fuel).DoneParts?
    ensures LookupBases(w, file, bases, steps, seen, more) == LookupBases(w, file, bases, steps, seen, fuel)
    decreases fuel, 1, bases
  {
    if bases != [] {
      if bases[0].NamedBase? && Resolve(w, file, bases[0].name).Some? {
        DeclMoreFuel(w, Resolve(w, file, bases[0].name).value, steps, seen, fuel, more);
      }
      BasesMoreFuel(w, file, bases[1..], steps, LookupBase(w, file, bases[0], steps, seen, fuel).seen, fuel, more);
    }
  }

  // ---------------------------------------------------------------- the theorems

  /** The lookup ends, entering no more declarations than there are keys, when the growth of the path is bounded. */
  lemma LookupTerminates(w: World, g: Growth, id: DeclId, steps: seq<Step>, fuel: nat)
    requires id in w.decls && Tame(w, g)
    requires fuel >= |AllKeys(w, |steps| + g[id])|
    ensures LookupDecl(w, id, steps, {}, fuel).Done?
  {
    assert AllKeys(w, |steps| + g[id]) - {} == AllKeys(w, |steps| + g[id]);
    DeclFinishes(w, g, id, steps, {}, fuel, |steps| + g[id]);
  }

  ghost predicate NoIndexedMembers(members: seq<TypeMember>)
    decreases members
  {
    forall i | 0 <= i < |members| && members[i].Property? && members[i].declared.Some? ::
      NoIndexed(members[i].declared.value)
  }

  /** No indexed access anywhere in the type. */
  ghost predicate NoIndexed(node: TypeNode)
    decreases node
  {
    match node
    case TypeLiteral(members) => NoIndexedMembers(members)
    case Parenthesized(inner) => NoIndexed(inner)
    case Intersection(first, others) => NoIndexed(first) && forall i | 0 <= i < |others| :: NoIndexed(others[i])
    case Union(first, others) => NoIndexed(first) && forall i | 0 <= i < |others| :: NoIndexed(others[i])
    case ArrayOf(element) => NoIndexed(element)
    case Readonly(inner) => NoIndexed(inner)
    case IndexedAccess(_, _) => false
    case Reference(_, _, args) => forall i | 0 <= i < |args| :: NoIndexed(args[i])
    case Other(_) => true
  }

  ghost predicate IndexFree(w: World) {
    forall id | id in w.decls ::
      match w.decls[id]
      case Enum(_) => true
      case Alias(_, body) => NoIndexed(body)
      case Interface(_, members, _) => NoIndexedMembers(members)
  }

  lemma {:induction false} NoIndexedGrows(w: World, g: Growth, file: string, node: TypeNode, extra: nat)
    requires NoIndexed(node) && g.Keys == w.decls.Keys && forall id | id in g :: g[id] == 0
    ensures Grows(w, g, file, node, extra)
    decreases node
  {
    match node
    case TypeLiteral(members) => NoIndexedMembersGrow(w, g, file, members, extra);
    case Parenthesized(inner) => NoIndexedGrows(w, g, file, inner, extra);
    case Intersection(first, others) =>
      NoIndexedGrows(w, g, file, first, extra);
      forall i | 0 <= i < |others| ensures Grows(w, g, file, others[i], extra) {
        NoIndexedGrows(w, g, file, others[i], extra);
      }
    case Union(first, others) =>
      NoIndexedGrows(w, g, file, first, extra);
      forall i | 0 <= i < |others| ensures Grows(w, g, file, others[i], extra) {
        NoIndexedGrows(w, g, file, others[i], extra);
      }
    case ArrayOf(element) => NoIndexedGrows(w, g, file, element, extra + 1);
    case Readonly(inner) => NoIndexedGrows(w, g, file, inner, extra);
    case Reference(name, qualified, args) =>
      if args != [] {
        NoIndexedGrows(w, g, file, args[0], if name in ARRAY_NAMES && name !in PASSTHROUGH_WRAPPERS then extra + 1 else extra);
      }
    case Other(_) =>
  }

  lemma {:induction false} NoIndexedMembersGrow(w: World, g: Growth, file: string, members: seq<TypeMember>, extra: nat)
    requires NoIndexedMembers(members) && g.Keys == w.decls.Keys && forall id | id in g :: g[id] == 0
    ensures MembersGrow(w, g, file, members, extra)
    decreases members
  {
    forall i | 0 <= i < |members| && members[i].Property? && members[i].declared.Some?
      ensures Grows(w, g, file, members[i].declared.value, extra + 1)
    {
      NoIndexedGrows(w, g, file, members[i].declared.value, extra + 1);
    }
  }

  /** Without indexed accesses the lookup ends on arbitrarily recursive declarations. */
  lemma IndexFreeTerminates(w: World, id: DeclId, steps: seq<Step>, fuel: nat)
    requires id in w.decls && IndexFree(w) && fuel >= |AllKeys(w, |steps|)|
    ensures LookupDecl(w, id, steps, {}, fuel).Done?
  {
    var g: Growth := map d | d in w.decls :: 0;
    forall d | d in w.decls
      ensures match w.decls[d]
              case Enum(_) => true
              case Alias(file, body) => Grows(w, g, file, body, 0)
              case Interface(file, members, bases) => MembersGrow(w, g, file, members, 0)
    {
      match w.decls[d]
      case Enum(_) =>
      case Alias(file, body) => NoIndexedGrows(w, g, file, body, 0);
      case Interface(file, members, bases) => NoIndexedMembersGrow(w, g, file, members, 0);
    }
    LookupTerminates(w, g, id, steps, fuel);
  }

  /** An interface with a member typed by its own indexed member. */
  const SELF_INDEXED := World(
    map["C" := Interface("f", [Property("mode", None),
                               Property("fallback", Some(IndexedAccess(Reference("C", false, []), Some("mode"))))], [])],
    map[("f", "C") := "C"])

  /** The step that the index prepends is the one that the member used up, so every lookup ends. */
  lemma SelfIndexedTerminates(steps: seq<Step>, fuel: nat)
    requires fuel >= |AllKeys(SELF_INDEXED, |steps|)|
    ensures Tame(SELF_INDEXED, map["C" := 0])
    ensures LookupDecl(SELF_INDEXED, "C", steps, {}, fuel).Done?
  {
    assert Resolve(SELF_INDEXED, "f", "C") == Some("C");
    var g: Growth := map["C" := 0];
    var access := IndexedAccess(Reference("C", false, []), Some("mode"));
    assert Grows(SELF_INDEXED, g, "f", Reference("C", false, []), 0);
    assert Grows(SELF_INDEXED, g, "f", access, 1);
    assert MembersGrow(SELF_INDEXED, g, "f", [Property("mode", None), Property("fallback", Some(access))], 0);
    assert Tame(SELF_INDEXED, g);
    LookupTerminates(SELF_INDEXED, g, "C", steps, fuel);
  }
}
