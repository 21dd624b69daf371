/**
 * Exactly when the lookup ends, on declarations below which no step is used up: aliases of any
 * unions, intersections, wrappers and indexed accesses, over literals and interfaces without typed members.
 */
module ConfigGrowth {
  import opened Results
  import opened ConfigTypes
  import opened ConfigEndless
  import opened Sets

  // ---------------------------------------------------------------- what a type can enter

  /** Every declaration a lookup in the type enters, with the steps prepended on the way. */
  function Exits(w: World, file: string, node: TypeNode): (exits: set<Hop>)
    ensures forall h | h in exits :: h.id in w.decls
    decreases node
  {
    match node
    case Parenthesized(inner) => Exits(w, file, inner)
    case Readonly(inner) => Exits(w, file, inner)
    case Intersection(first, others) => Exits(w, file, first) + PartExits(w, file, others)
    case Union(first, others) => Exits(w, file, first) + PartExits(w, file, others)
    case IndexedAccess(target, key) =>
      if key.Some? then set h | h in Exits(w, file, target) :: Hop(h.id, h.pushed + 1) else {}
    case Reference(name, qualified, args) =>
      if name in PASSTHROUGH_WRAPPERS && args != [] then Exits(w, file, args[0])
      else if (name in ARRAY_NAMES && args != []) || qualified || Resolve(w, file, name).None? then {}
      else {Hop(Resolve(w, file, name).value, 0)}
    case _ => {}
  }

  function PartExits(w: World, file: string, parts: seq<TypeNode>): (exits: set<Hop>)
    ensures forall h | h in exits :: h.id in w.decls
    decreases parts
  {
    if parts == [] then {} else Exits(w, file, parts[0]) + PartExits(w, file, parts[1..])
  }

  function ExitsOf(w: World, id: DeclId): (exits: set<Hop>)
    requires id in w.decls
    ensures forall h | h in exits :: h.id in w.decls
  {
    if w.decls[id].Alias? then Exits(w, w.decls[id].file, w.decls[id].body) else {}
  }

  predicate LeafMembers(members: seq<TypeMember>) {
    forall i | 0 <= i < |members| && members[i].Property? :: members[i].declared.None?
  }

  /** Nothing below the type uses up a step and goes on. */
  predicate Plain(node: TypeNode)
    decreases node
  {
    match node
    case TypeLiteral(members) => LeafMembers(members)
    case Parenthesized(inner) => Plain(inner)
    case Readonly(inner) => Plain(inner)
    case Intersection(first, others) => Plain(first) && AllPlain(others)
    case Union(first, others) => Plain(first) && AllPlain(others)
    case ArrayOf(_) => false
    case IndexedAccess(target, _) => Plain(target)
    case Reference(name, _, args) =>
      args != [] ==> if name in PASSTHROUGH_WRAPPERS then Plain(args[0]) else name !in ARRAY_NAMES
    case Other(_) => true
  }

  predicate AllPlain(parts: seq<TypeNode>)
    decreases parts
  {
    parts != [] ==> Plain(parts[0]) && AllPlain(parts[1..])
  }

  ghost predicate PlainWorld(w: World) {
    forall id | id in w.decls ::
      match w.decls[id]
      case Enum(_) => true
      case Alias(_, body) => Plain(body)
      case Interface(_, members, bases) => LeafMembers(members) && bases == []
  }

  // ---------------------------------------------------------------- growth

  /** `k` entries in a row can lead from `a` to `b`, prepending `p` steps together. */
  ghost predicate Leads(w: World, a: DeclId, b: DeclId, p: nat, k: nat)
    requires a in w.decls && b in w.decls
    decreases k
  {
    if k == 0 then a == b && p == 0
    else exists h :: h in ExitsOf(w, a) && h.pushed <= p && Leads(w, h.id, b, p - h.pushed, k - 1)
  }

  /** Entries can lead back to `d` with a longer path. */
  ghost predicate CanReturnLonger(w: World, d: DeclId)
    requires d in w.decls
  {
    exists q: nat, k: nat :: q > 0 && Leads(w, d, d, q, k)
  }

  ghost predicate CanReach(w: World, a: DeclId, b: DeclId)
    requires a in w.decls && b in w.decls
  {
    exists p: nat, j: nat :: Leads(w, a, b, p, j)
  }

  /** A cycle that prepends a step can be reached. */
  ghost predicate CanGrow(w: World, id: DeclId)
    requires id in w.decls
  {
    exists d :: d in w.decls && CanReach(w, id, d) && CanReturnLonger(w, d)
  }

  lemma {:induction false} LeadsOn(w: World, a: DeclId, b: DeclId, c: DeclId, p: nat, j: nat, q: nat, k: nat)
    requires a in w.decls && b in w.decls && c in w.decls && Leads(w, a, b, p, j) && Leads(w, b, c, q, k)
    ensures Leads(w, a, c, p + q, j + k)
    decreases j
  {
    if j > 0 {
      var h :| h in ExitsOf(w, a) && h.pushed <= p && Leads(w, h.id, b, p - h.pushed, j - 1);
      LeadsOn(w, h.id, b, c, p - h.pushed, j - 1, q, k);
      assert p + q - h.pushed == p - h.pushed + q;
    }
  }

  lemma LeadsOne(w: World, a: DeclId, h: Hop)
    requires a in w.decls && h in ExitsOf(w, a)
    ensures Leads(w, a, h.id, h.pushed, 1)
  {
    assert Leads(w, h.id, h.id, 0, 0);
    assert h.pushed - h.pushed == 0;
  }

  lemma GrowStep(w: World, a: DeclId, h: Hop)
    requires a in w.decls && h in ExitsOf(w, a) && CanGrow(w, h.id)
    ensures CanGrow(w, a)
  {
    hide ExitsOf;
    var d :| d in w.decls && CanReach(w, h.id, d) && CanReturnLonger(w, d);
    var p: nat, j: nat :| Leads(w, h.id, d, p, j);
    LeadsOne(w, a, h);
    LeadsOn(w, a, h.id, d, h.pushed, 1, p, j);
    assert CanReach(w, a, d);
  }

  // ---------------------------------------------------------------- without growth the lookup ends

  /** `d` was entered on the way here, and its key is among those seen. */
  ghost predicate EnteredAt(w: World, id: DeclId, length: nat, seen: set<Key>, d: DeclId)
    requires id in w.decls && d in w.decls
  {
    exists p: nat, k: nat :: Leads(w, d, id, p, k) && p <= length && (d, length - p) in seen
  }

  /** The declarations on the way here, and no growth ahead. */
  ghost predicate OnTheWay(w: World, id: DeclId, length: nat, seen: set<Key>, entered: set<DeclId>)
    requires id in w.decls && entered <= w.decls.Keys
  {
    !CanGrow(w, id) && forall d | d in entered :: EnteredAt(w, id, length, seen, d)
  }

  lemma WayGrows(w: World, id: DeclId, length: nat, seen: set<Key>, more: set<Key>, entered: set<DeclId>)
    requires id in w.decls && entered <= w.decls.Keys && OnTheWay(w, id, length, seen, entered) && seen <= more
    ensures OnTheWay(w, id, length, more, entered)
  {
    hide Leads, CanGrow;
    forall d | d in entered ensures EnteredAt(w, id, length, more, d) {
      assert EnteredAt(w, id, length, seen, d);
    }
  }

  lemma WayGoesOn(w: World, id: DeclId, length: nat, seen: set<Key>, entered: set<DeclId>, h: Hop)
    requires id in w.decls && entered <= w.decls.Keys && OnTheWay(w, id, length, seen, entered) && h in ExitsOf(w, id)
    ensures OnTheWay(w, h.id, length + h.pushed, seen + {(id, length)}, entered + {id})
  {
    hide Leads, CanGrow, ExitsOf;
    var seen', length' := seen + {(id, length)}, length + h.pushed;
    LeadsOne(w, id, h);
    if CanGrow(w, h.id) {
      GrowStep(w, id, h);
    }
    forall d | d in entered + {id} ensures EnteredAt(w, h.id, length', seen', d) {
      if d in entered {
        assert EnteredAt(w, id, length, seen, d);
        var p: nat, k: nat :| Leads(w, d, id, p, k) && p <= length && (d, length - p) in seen;
        LeadsOn(w, d, id, h.id, p, k, h.pushed, 1);
        assert length' - (p + h.pushed) == length - p;
      } else {
        assert length' - h.pushed == length;
      }
    }
  }

  /** Coming back to a declaration without growth meets its key. */
  lemma ReturnIsSeen(w: World, id: DeclId, length: nat, seen: set<Key>, entered: set<DeclId>)
    requires id in entered && entered <= w.decls.Keys && OnTheWay(w, id, length, seen, entered)
    ensures (id, length) in seen
  {
    hide Leads, CanGrow;
    assert EnteredAt(w, id, length, seen, id);
    var p: nat, k: nat :| Leads(w, id, id, p, k) && p <= length && (id, length - p) in seen;
    if p > 0 {
      LongerReturnGrows(w, id, p, k);
    }
  }

  lemma LongerReturnGrows(w: World, d: DeclId, q: nat, k: nat)
    requires d in w.decls && q > 0 && Leads(w, d, d, q, k)
    ensures CanGrow(w, d)
  {
    assert Leads(w, d, d, 0, 0);
    assert CanReach(w, d, d) && CanReturnLonger(w, d);
  }

  ghost predicate Ends(seen: set<Key>, r: Outcome) {
    r.Done? && seen <= r.seen
  }

  ghost predicate AllOnTheWay(w: World, exits: set<Hop>, length: nat, seen: set<Key>, entered: set<DeclId>)
    requires entered <= w.decls.Keys && forall h | h in exits :: h.id in w.decls
  {
    forall h | h in exits :: OnTheWay(w, h.id, length + h.pushed, seen, entered)
  }

  lemma AllWaysGrow(w: World, exits: set<Hop>, length: nat, seen: set<Key>, more: set<Key>, entered: set<DeclId>)
    requires entered <= w.decls.Keys && forall h | h in exits :: h.id in w.decls
    requires AllOnTheWay(w, exits, length, seen, entered) && seen <= more
    ensures AllOnTheWay(w, exits, length, more, entered)
  {
    hide OnTheWay;
    forall h | h in exits ensures OnTheWay(w, h.id, length + h.pushed, more, entered) {
      WayGrows(w, h.id, length + h.pushed, seen, more, entered);
    }
  }

  lemma {:induction false} NodeEnds(w: World, file: string, node: TypeNode, steps: seq<Step>, seen: set<Key>,
                                    entered: set<DeclId>, fuel: nat)
    requires PlainWorld(w) && Plain(node) && steps != [] && entered <= w.decls.Keys && fuel >= |w.decls.Keys - entered|
    requires AllOnTheWay(w, Exits(w, file, node), |steps|, seen, entered)
    ensures Ends(seen, LookupNode(w, file, node, steps, seen, fuel))
    decreases fuel, 1, node
  {
    hide OnTheWay, PlainWorld;
    match node
    case TypeLiteral(members) =>
    case Parenthesized(inner) => NodeEnds(w, file, inner, steps, seen, entered, fuel);
    case Readonly(inner) => NodeEnds(w, file, inner, steps, seen, entered, fuel);
    case Intersection(first, others) => BranchesEnd(w, file, node, first, others, steps, seen, entered, fuel);
    case Union(first, others) => BranchesEnd(w, file, node, first, others, steps, seen, entered, fuel);
    case IndexedAccess(target, key) =>
      if key.Some? {
        forall h | h in Exits(w, file, target) ensures OnTheWay(w, h.id, |steps| + 1 + h.pushed, seen, entered) {
          assert Hop(h.id, h.pushed + 1) in Exits(w, file, node);
        }
        NodeEnds(w, file, target, [Member(key.value)] + steps, seen, entered, fuel);
      }
    case Reference(name, qualified, args) =>
      if name in PASSTHROUGH_WRAPPERS && args != [] {
        NodeEnds(w, file, args[0], steps, seen, entered, fuel);
      } else if !(name in ARRAY_NAMES && args != []) && !qualified && Resolve(w, file, name).Some? {
        var id := Resolve(w, file, name).value;
        assert Hop(id, 0) in Exits(w, file, node);
        DeclEnds(w, id, steps, seen, entered, fuel);
      }
    case Other(_) =>
  }

  lemma {:induction false} BranchesEnd(w: World, file: string, node: TypeNode, first: TypeNode, others: seq<TypeNode>,
                                       steps: seq<Step>, seen: set<Key>, entered: set<DeclId>, fuel: nat)
    requires PlainWorld(w) && Plain(node) && steps != [] && entered <= w.decls.Keys && fuel >= |w.decls.Keys - entered|
    requires node == Union(first, others) || node == Intersection(first, others)
    requires AllOnTheWay(w, Exits(w, file, node), |steps|, seen, entered)
    ensures Ends(seen, LookupNode(w, file, node, steps, seen, fuel))
    decreases fuel, 1, node, 0
  {
    hide OnTheWay, PlainWorld;
    NodeEnds(w, file, first, steps, seen, entered, fuel);
    var head := LookupNode(w, file, first, steps, seen, fuel);
    AllWaysGrow(w, PartExits(w, file, others), |steps|, seen, head.seen, entered);
    PartsEnd(w, file, others, steps, head.seen, entered, fuel);
  }

  lemma {:induction false} PartsEnd(w: World, file: string, parts: seq<TypeNode>, steps: seq<Step>, seen: set<Key>,
                                    entered: set<DeclId>, fuel: nat)
    requires PlainWorld(w) && AllPlain(parts) && steps != [] && entered <= w.decls.Keys && fuel >= |w.decls.Keys - entered|
    requires AllOnTheWay(w, PartExits(w, file, parts), |steps|, seen, entered)
    ensures var r := LookupParts(w, file, parts, steps, seen, fuel); r.DoneParts? && seen <= r.seen
    decreases fuel, 1, parts
  {
    hide OnTheWay, PlainWorld;
    if parts != [] {
      NodeEnds(w, file, parts[0], steps, seen, entered, fuel);
      var one := LookupNode(w, file, parts[0], steps, seen, fuel);
      AllWaysGrow(w, PartExits(w, file, parts[1..]), |steps|, seen, one.seen, entered);
      PartsEnd(w, file, parts[1..], steps, one.seen, entered, fuel);
    }
  }

  lemma {:induction false} DeclEnds(w: World, id: DeclId, steps: seq<Step>, seen: set<Key>, entered: set<DeclId>, fuel: nat)
    requires PlainWorld(w) && id in w.decls && steps != [] && entered <= w.decls.Keys && fuel >= |w.decls.Keys - entered|
    requires OnTheWay(w, id, |steps|, seen, entered)
    ensures Ends(seen, LookupDecl(w, id, steps, seen, fuel))
    decreases fuel, 0, 0
  {
    hide OnTheWay, Exits;
    if id in entered {
      ReturnIsSeen(w, id, |steps|, seen, entered);
    } else {
      assert w.decls.Keys - (entered + {id}) == w.decls.Keys - entered - {id} && id in w.decls.Keys - entered;
      assert fuel > 0;
      var seen' := seen + {(id, |steps|)};
      if w.decls[id].Alias? {
        forall h | h in ExitsOf(w, id) ensures OnTheWay(w, h.id, |steps| + h.pushed, seen', entered + {id}) {
          WayGoesOn(w, id, |steps|, seen, entered, h);
        }
        NodeEnds(w, w.decls[id].file, w.decls[id].body, steps, seen', entered + {id}, fuel - 1);
      }
    }
  }

  // ---------------------------------------------------------------- a lookup that ends saw everything it can enter

  /** The key of an entry, which an enumeration does not leave. */
  ghost predicate Left(w: World, h: Hop, length: nat, seen: set<Key>)
    requires h.id in w.decls
  {
    w.decls[h.id].Enum? || (h.id, length + h.pushed) in seen
  }

  /** Everything enterable from the keys added between the two sets is in the later one. */
  ghost predicate Closes(w: World, before: set<Key>, after: set<Key>) {
    && before <= after
    && forall key, h | key in after && key !in before && key.0 in w.decls && h in ExitsOf(w, key.0) ::
         Left(w, h, key.1, after)
  }

  ghost predicate ClosesOver(w: World, exits: set<Hop>, length: nat, before: set<Key>, after: set<Key>)
    requires forall h | h in exits :: h.id in w.decls
  {
    Closes(w, before, after) && forall h | h in exits :: Left(w, h, length, after)
  }

  lemma ClosesOn(w: World, a: set<Key>, b: set<Key>, c: set<Key>)
    requires Closes(w, a, b) && Closes(w, b, c)
    ensures Closes(w, a, c)
  {
    hide ExitsOf;
    forall key, h | key in c && key !in a && key.0 in w.decls && h in ExitsOf(w, key.0) ensures Left(w, h, key.1, c) {
      if key in b {
        assert Left(w, h, key.1, b);
      }
    }
  }

  lemma {:induction false} NodeCloses(w: World, file: string, node: TypeNode, steps: seq<Step>, seen: set<Key>, fuel: nat)
    requires PlainWorld(w) && Plain(node) && steps != []
    ensures var r := LookupNode(w, file, node, steps, seen, fuel);
            r.Done? ==> ClosesOver(w, Exits(w, file, node), |steps|, seen, r.seen)
    decreases fuel, 1, node
  {
    hide Closes, PlainWorld;
    NothingCloses(w, seen);
    match node
    case TypeLiteral(members) =>
    case Parenthesized(inner) => NodeCloses(w, file, inner, steps, seen, fuel);
    case Readonly(inner) => NodeCloses(w, file, inner, steps, seen, fuel);
    case Intersection(first, others) => BranchesClose(w, file, node, first, others, steps, seen, fuel);
    case Union(first, others) => BranchesClose(w, file, node, first, others, steps, seen, fuel);
    case IndexedAccess(target, key) =>
      if key.Some? {
        NodeCloses(w, file, target, [Member(key.value)] + steps, seen, fuel);
        var r := LookupNode(w, file, target, [Member(key.value)] + steps, seen, fuel);
        if r.Done? {
          forall h | h in Exits(w, file, node) ensures Left(w, h, |steps|, r.seen) {
            var t :| t in Exits(w, file, target) && h == Hop(t.id, t.pushed + 1);
            assert Left(w, t, |steps| + 1, r.seen);
          }
        }
      }
    case Reference(name, qualified, args) =>
      if name in PASSTHROUGH_WRAPPERS && args != [] {
        NodeCloses(w, file, args[0], steps, seen, fuel);
      } else if !(name in ARRAY_NAMES && args != []) && !qualified && Resolve(w, file, name).Some? {
        DeclCloses(w, Resolve(w, file, name).value, steps, seen, fuel);
      }
    case Other(_) =>
  }

  lemma NothingCloses(w: World, seen: set<Key>)
    ensures Closes(w, seen, seen)
  {
  }

  lemma {:induction false} BranchesClose(w: World, file: string, node: TypeNode, first: TypeNode, others: seq<TypeNode>,
                                         steps: seq<Step>, seen: set<Key>, fuel: nat)
    requires PlainWorld(w) && Plain(node) && steps != []
    requires node == Union(first, others) || node == Intersection(first, others)
    ensures var r := LookupNode(w, file, node, steps, seen, fuel);
            r.Done? ==> ClosesOver(w, Exits(w, file, node), |steps|, seen, r.seen)
    decreases fuel, 1, node, 0
  {
    hide Closes, PlainWorld;
    var head := LookupNode(w, file, first, steps, seen, fuel);
    if head.Done? {
      NodeCloses(w, file, first, steps, seen, fuel);
      PartsClose(w, file, others, steps, head.seen, fuel);
      var tail := LookupParts(w, file, others, steps, head.seen, fuel);
      if tail.DoneParts? {
        ClosesTogether(w, Exits(w, file, first), PartExits(w, file, others), |steps|, seen, head.seen, tail.seen);
      }
    }
  }

  lemma ClosesTogether(w: World, first: set<Hop>, more: set<Hop>, length: nat, a: set<Key>, b: set<Key>, c: set<Key>)
    requires forall h | h in first + more :: h.id in w.decls
    requires ClosesOver(w, first, length, a, b) && ClosesOver(w, more, length, b, c)
    ensures ClosesOver(w, first + more, length, a, c)
  {
    ClosesOn(w, a, b, c);
    forall h | h in first + more ensures Left(w, h, length, c) {
      if h in first {
        assert Left(w, h, length, b);
      }
    }
  }

  lemma {:induction false} PartsClose(w: World, file: string, parts: seq<TypeNode>, steps: seq<Step>, seen: set<Key>, fuel: nat)
    requires PlainWorld(w) && AllPlain(parts) && steps != []
    ensures var r := LookupParts(w, file, parts, steps, seen, fuel);
            r.DoneParts? ==> ClosesOver(w, PartExits(w, file, parts), |steps|, seen, r.seen)
    decreases fuel, 1, parts
  {
    hide Closes, PlainWorld;
    NothingCloses(w, seen);
    if parts != [] {
      var one := LookupNode(w, file, parts[0], steps, seen, fuel);
      if one.Done? {
        NodeCloses(w, file, parts[0], steps, seen, fuel);
        PartsClose(w, file, parts[1..], steps, one.seen, fuel);
        var more := LookupParts(w, file, parts[1..], steps, one.seen, fuel);
        if more.DoneParts? {
          ClosesTogether(w, Exits(w, file, parts[0]), PartExits(w, file, parts[1..]), |steps|, seen, one.seen, more.seen);
        }
      }
    }
  }

  lemma {:induction false} DeclCloses(w: World, id: DeclId, steps: seq<Step>, seen: set<Key>, fuel: nat)
    requires PlainWorld(w) && id in w.decls && steps != []
    ensures var r := LookupDecl(w, id, steps, seen, fuel);
            r.Done? ==> Closes(w, seen, r.seen) && Left(w, Hop(id, 0), |steps|, r.seen)
    decreases fuel, 0, 0
  {
    hide Closes, Exits;
    NothingCloses(w, seen);
    var key := (id, |steps|);
    var r := LookupDecl(w, id, steps, seen, fuel);
    if r.Done? && !w.decls[id].Enum? && key !in seen {
      if w.decls[id].Alias? {
        NodeCloses(w, w.decls[id].file, w.decls[id].body, steps, seen + {key}, fuel - 1);
      } else {
        LeafEnds(w, id, steps, seen, fuel);
        NothingCloses(w, seen + {key});
      }
      ClosesWith(w, key, seen, r.seen);
    }
  }

  lemma LeafEnds(w: World, id: DeclId, steps: seq<Step>, seen: set<Key>, fuel: nat)
    requires PlainWorld(w) && id in w.decls && w.decls[id].Interface? && steps != [] && fuel > 0
    requires (id, |steps|) !in seen
    ensures var r := LookupDecl(w, id, steps, seen, fuel); r.Done? && r.seen == seen + {(id, |steps|)}
    ensures ExitsOf(w, id) == {}
  {
  }

  /** Once its exits are left too, the key of the declaration itself closes. */
  lemma ClosesWith(w: World, key: Key, before: set<Key>, after: set<Key>)
    requires key.0 in w.decls && Closes(w, before + {key}, after)
    requires forall h | h in ExitsOf(w, key.0) :: Left(w, h, key.1, after)
    ensures Closes(w, before, after) && key in after
  {
  }

  // ---------------------------------------------------------------- growth never ends

  lemma {:induction false} LeadsToSeen(w: World, a: DeclId, b: DeclId, p: nat, k: nat, length: nat, seen: set<Key>)
    requires a in w.decls && b in w.decls && Leads(w, a, b, p, k) && !w.decls[b].Enum?
    requires Closes(w, {}, seen) && (a, length) in seen
    ensures (b, length + p) in seen
    decreases k
  {
    hide Exits;
    if k > 0 {
      var h :| h in ExitsOf(w, a) && h.pushed <= p && Leads(w, h.id, b, p - h.pushed, k - 1);
      assert (a, length).0 == a && Left(w, h, length, seen);
      EnumLeadsNowhere(w, h.id, b, p - h.pushed, k - 1);
      LeadsToSeen(w, h.id, b, p - h.pushed, k - 1, length + h.pushed, seen);
    }
  }

  lemma {:induction false} EverLonger(w: World, d: DeclId, q: nat, k: nat, length: nat, seen: set<Key>, m: nat) returns (l: nat)
    requires d in w.decls && q > 0 && Leads(w, d, d, q, k) && !w.decls[d].Enum?
    requires Closes(w, {}, seen) && (d, length) in seen
    ensures l >= m && (d, l) in seen
    decreases m
  {
    l := length;
    if m > 0 {
      var shorter := EverLonger(w, d, q, k, length, seen, m - 1);
      LeadsToSeen(w, d, d, q, k, shorter, seen);
      l := shorter + q;
    }
  }

  lemma LengthsBounded(seen: set<Key>) returns (b: nat)
    ensures forall key | key in seen :: key.1 < b
  {
    b := 0;
    if seen != {} {
      var key :| key in seen;
      var c := LengthsBounded(seen - {key});
      b := if key.1 < c then c else key.1 + 1;
    }
  }

  /** Where growth can be reached, no amount of fuel ends the lookup. */
  lemma GrowthNeverEnds(w: World, id: DeclId, steps: seq<Step>, fuel: nat)
    requires PlainWorld(w) && id in w.decls && steps != [] && CanGrow(w, id)
    ensures LookupDecl(w, id, steps, {}, fuel) == Stuck
  {
    hide Leads, Closes, PlainWorld;
    var r := LookupDecl(w, id, steps, {}, fuel);
    DeclCloses(w, id, steps, {}, fuel);
    if r.Done? {
      var d :| d in w.decls && CanReach(w, id, d) && CanReturnLonger(w, d);
      var p: nat, j: nat :| Leads(w, id, d, p, j);
      var q: nat, k: nat :| q > 0 && Leads(w, d, d, q, k);
      ReturnsFromAlias(w, d, q, k);
      EnumLeadsNowhere(w, id, d, p, j);
      LeadsToSeen(w, id, d, p, j, |steps|, r.seen);
      var b := LengthsBounded(r.seen);
      var l := EverLonger(w, d, q, k, |steps| + p, r.seen, b);
    }
  }

  lemma ReturnsFromAlias(w: World, d: DeclId, q: nat, k: nat)
    requires d in w.decls && q > 0 && Leads(w, d, d, q, k)
    ensures w.decls[d].Alias?
  {
    var h :| h in ExitsOf(w, d) && h.pushed <= q && Leads(w, h.id, d, q - h.pushed, k - 1);
  }

  lemma EnumLeadsNowhere(w: World, a: DeclId, b: DeclId, p: nat, k: nat)
    requires a in w.decls && b in w.decls && Leads(w, a, b, p, k) && !w.decls[b].Enum?
    ensures !w.decls[a].Enum?
  {
    if k > 0 {
      var h :| h in ExitsOf(w, a) && h.pushed <= p && Leads(w, h.id, b, p - h.pushed, k - 1);
    }
  }

  /** On plain declarations the lookup of a non-empty path ends exactly when no growing cycle can be reached. */
  lemma GrowthDecides(w: World, id: DeclId, steps: seq<Step>, fuel: nat)
    requires PlainWorld(w) && id in w.decls && steps != [] && fuel >= |w.decls.Keys|
    ensures LookupDecl(w, id, steps, {}, fuel).Done? <==> !CanGrow(w, id)
  {
    hide CanGrow, PlainWorld;
    if CanGrow(w, id) {
      GrowthNeverEnds(w, id, steps, fuel);
    } else {
      assert w.decls.Keys - {} == w.decls.Keys;
      DeclEnds(w, id, steps, {}, {}, fuel);
    }
  }
}
