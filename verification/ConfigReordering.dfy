/**
 * The order in which a lookup visits parts of unions and intersections, and bases of interfaces, at
 * any depth and in any declaration, never turns found into missing or missing into found.
 */
module ConfigReordering {
  import opened Results
  import opened ConfigTypes
  import opened ConfigPresence
  import opened ConfigSoundness

  // ---------------------------------------------------------------- the same types in another order

  /** The same type, with the parts of its unions and intersections in any order, at every depth. */
  ghost predicate Reordered(a: TypeNode, b: TypeNode)
    decreases a, 0
  {
    match a
    case TypeLiteral(members) => b.TypeLiteral? && ReorderedMembers(members, b.members)
    case Parenthesized(inner) => b.Parenthesized? && Reordered(inner, b.inner)
    case Readonly(inner) => b.Readonly? && Reordered(inner, b.inner)
    case Intersection(first, others) =>
      && b.Intersection?
      && var parts := [b.first] + b.others;
         && MatchesSome(first, parts) && (forall i | 0 <= i < |others| :: MatchesSome(others[i], parts))
         && forall u | u in parts :: Reordered(first, u) || exists i :: 0 <= i < |others| && Reordered(others[i], u)
    case Union(first, others) =>
      && b.Union?
      && var parts := [b.first] + b.others;
         && MatchesSome(first, parts) && (forall i | 0 <= i < |others| :: MatchesSome(others[i], parts))
         && forall u | u in parts :: Reordered(first, u) || exists i :: 0 <= i < |others| && Reordered(others[i], u)
    case ArrayOf(element) => b.ArrayOf? && Reordered(element, b.element)
    case IndexedAccess(target, key) => b.IndexedAccess? && b.key == key && Reordered(target, b.target)
    case Reference(name, qualified, args) =>
      && b.Reference? && b.name == name && b.qualified == qualified && |b.args| == |args|
      && forall i | 0 <= i < |args| :: Reordered(args[i], b.args[i])
    case Other(_) => b.Other?
  }

  ghost predicate MatchesSome(t: TypeNode, parts: seq<TypeNode>)
    decreases t, 1
  {
    exists u :: u in parts && Reordered(t, u)
  }

  ghost predicate ReorderedMembers(a: seq<TypeMember>, b: seq<TypeMember>)
    decreases a, 0
  {
    |a| == |b| && forall i | 0 <= i < |a| :: ReorderedMember(a[i], b[i])
  }

  ghost predicate ReorderedMember(a: TypeMember, b: TypeMember)
    decreases a, 0
  {
    match a
    case Property(name, declared) =>
      && b.Property? && b.name == name && (b.declared.Some? <==> declared.Some?)
      && (declared.Some? ==> Reordered(declared.value, b.declared.value))
    case OtherMember => b.OtherMember?
  }

  /** The same declaration, with its types reordered and its bases in any order. */
  ghost predicate ReorderedDecl(a: Declaration, b: Declaration) {
    match a
    case Interface(file, members, bases) =>
      && b.Interface? && b.file == file && ReorderedMembers(members, b.members)
      && forall base :: base in bases <==> base in b.bases
    case Alias(file, body) => b.Alias? && b.file == file && Reordered(body, b.body)
    case Enum(_) => b.Enum?
  }

  ghost predicate ReorderedWorld(w: World, v: World) {
    && w.names == v.names && w.decls.Keys == v.decls.Keys
    && forall id | id in w.decls :: ReorderedDecl(w.decls[id], v.decls[id])
  }

  // ---------------------------------------------------------------- presence is the same

  /** Nothing exists beyond what a lookup can see. */
  ghost predicate Closed(q: Reading) {
    forall place, steps :: !q.beyond(place, steps)
  }

  lemma {:induction false} FindReordered(a: seq<TypeMember>, b: seq<TypeMember>, name: string)
    requires ReorderedMembers(a, b)
    ensures var p, r := FindProperty(a, name), FindProperty(b, name);
            p.Some? == r.Some? && (p.Some? ==> ReorderedMember(p.value, r.value))
  {
    hide Reordered;
    if a != [] {
      assert ReorderedMember(a[0], b[0]);
      forall i | 0 <= i < |a[1..]| ensures ReorderedMember(a[1..][i], b[1..][i]) {
        assert ReorderedMember(a[i + 1], b[i + 1]);
      }
      FindReordered(a[1..], b[1..], name);
    }
  }

  lemma {:induction false} SameBelow(w: World, v: World, q: Reading, file: string, a: TypeMember, b: TypeMember,
                                     steps: seq<Step>, n: nat)
    requires ReorderedWorld(w, v) && Closed(q) && a.Property? && ReorderedMember(a, b) && steps != []
    ensures HasBelow(w, q, file, a, steps, n) == HasBelow(v, q, file, b, steps, n)
    decreases n, 1, a
  {
    if |steps| > 1 && a.declared.Some? {
      SameNode(w, v, q, file, a.declared.value, b.declared.value, steps[1..], n);
    }
  }

  /** A path is present in a type exactly when it is present in the reordered type of the reordered world. */
  lemma {:induction false} SameNode(w: World, v: World, q: Reading, file: string, a: TypeNode, b: TypeNode,
                                    steps: seq<Step>, n: nat)
    requires ReorderedWorld(w, v) && Closed(q) && Reordered(a, b)
    ensures Has(w, q, file, a, steps, n) == Has(v, q, file, b, steps, n)
    decreases n, 1, a
  {
    hide ReorderedWorld, ReorderedMember;
    if steps != [] {
      match a
      case TypeLiteral(members) =>
        if steps[0].Member? {
          FindReordered(members, b.members, steps[0].name);
          var p := FindProperty(members, steps[0].name);
          if p.Some? {
            SameBelow(w, v, q, file, p.value, FindProperty(b.members, steps[0].name).value, steps, n);
          }
        }
      case Parenthesized(inner) => SameNode(w, v, q, file, inner, b.inner, steps, n);
      case Readonly(inner) => SameNode(w, v, q, file, inner, b.inner, steps, n);
      case Intersection(first, others) => SameBranches(w, v, q, file, a, b, first, others, b.first, b.others, steps, n);
      case Union(first, others) => SameBranches(w, v, q, file, a, b, first, others, b.first, b.others, steps, n);
      case ArrayOf(element) =>
        if steps[0].Element? {
          SameNode(w, v, q, file, element, b.element, steps[1..], n);
        }
      case IndexedAccess(target, key) =>
        if key.Some? {
          SameNode(w, v, q, file, target, b.target, [Member(key.value)] + steps, n);
        }
      case Reference(name, qualified, args) =>
        if name in PASSTHROUGH_WRAPPERS && args != [] {
          SameNode(w, v, q, file, args[0], b.args[0], steps, n);
        } else if name in ARRAY_NAMES && args != [] {
          if steps[0].Element? {
            SameNode(w, v, q, file, args[0], b.args[0], steps[1..], n);
          }
        } else {
          SameNames(w, v, file, name);
          if !qualified && Resolve(w, file, name).Some? {
            SameDecl(w, v, q, Resolve(w, file, name).value, steps, n);
          }
        }
      case Other(_) =>
    }
  }

  lemma SameNames(w: World, v: World, file: string, name: string)
    requires ReorderedWorld(w, v)
    ensures Resolve(w, file, name) == Resolve(v, file, name)
  {
  }

  lemma {:induction false} SameBranches(w: World, v: World, q: Reading, file: string, a: TypeNode, b: TypeNode,
                                        first: TypeNode, others: seq<TypeNode>, first': TypeNode, others': seq<TypeNode>,
                                        steps: seq<Step>, n: nat)
    requires ReorderedWorld(w, v) && Closed(q) && Reordered(a, b) && steps != []
    requires || (a == Intersection(first, others) && b == Intersection(first', others'))
             || (a == Union(first, others) && b == Union(first', others'))
    ensures Has(w, q, file, a, steps, n) == Has(v, q, file, b, steps, n)
    decreases n, 1, a, 0
  {
    hide ReorderedWorld, Reordered, Has, Matched;
    var parts, parts' := [first] + others, [first'] + others';
    forall t, u | t in parts && u in parts' && Reordered(t, u)
      ensures Has(w, q, file, t, steps, n) == Has(v, q, file, u, steps, n)
    {
      assert t == first || t in others;
      SameNode(w, v, q, file, t, u, steps, n);
    }
    PartsMatch(a, b, first, others, first', others');
    PartsAgree(parts, parts', t => Has(w, q, file, t, steps, n), u => Has(v, q, file, u, steps, n));
    HasInParts(w, q, file, first, others, steps, n);
    HasInParts(v, q, file, first', others', steps, n);
  }

  /** Every part has a reordered counterpart on the other side. */
  ghost predicate Matched(parts: seq<TypeNode>, parts': seq<TypeNode>) {
    && (forall t | t in parts :: MatchesSome(t, parts'))
    && (forall u | u in parts' :: SomeMatches(parts, u))
  }

  ghost predicate SomeMatches(parts: seq<TypeNode>, u: TypeNode) {
    exists t :: t in parts && Reordered(t, u)
  }

  lemma PartsMatch(a: TypeNode, b: TypeNode, first: TypeNode, others: seq<TypeNode>, first': TypeNode, others': seq<TypeNode>)
    requires Reordered(a, b)
    requires || (a == Intersection(first, others) && b == Intersection(first', others'))
             || (a == Union(first, others) && b == Union(first', others'))
    ensures Matched([first] + others, [first'] + others')
  {
    hide Reordered, MatchesSome;
    var parts, parts' := [first] + others, [first'] + others';
    PartsUnfold(a, b, first, others, parts');
    assert parts[0] == first;
    forall t | t in parts ensures MatchesSome(t, parts') {
      assert t == first || t in others;
    }
    forall u | u in parts' ensures SomeMatches(parts, u) {
      if !Reordered(first, u) {
        var i :| 0 <= i < |others| && Reordered(others[i], u);
        assert parts[i + 1] == others[i];
      }
    }
  }

  lemma PartsUnfold(a: TypeNode, b: TypeNode, first: TypeNode, others: seq<TypeNode>, parts': seq<TypeNode>)
    requires Reordered(a, b)
    requires || (b.Intersection? && a == Intersection(first, others) && parts' == [b.first] + b.others)
             || (b.Union? && a == Union(first, others) && parts' == [b.first] + b.others)
    ensures MatchesSome(first, parts') && forall i | 0 <= i < |others| :: MatchesSome(others[i], parts')
    ensures forall u | u in parts' :: Reordered(first, u) || exists i :: 0 <= i < |others| && Reordered(others[i], u)
  {
    hide MatchesSome;
  }

  /** What holds of reordered counterparts alike holds of some, or of all, parts alike. */
  lemma PartsAgree(parts: seq<TypeNode>, parts': seq<TypeNode>, p: TypeNode -> bool, r: TypeNode -> bool)
    requires Matched(parts, parts')
    requires forall t, u | t in parts && u in parts' && Reordered(t, u) :: p(t) == r(u)
    ensures (exists t :: t in parts && p(t)) <==> (exists u :: u in parts' && r(u))
    ensures (forall t | t in parts :: p(t)) <==> (forall u | u in parts' :: r(u))
  {
    hide Reordered, Matched, MatchesSome;
    forall t | t in parts ensures (p(t) ==> exists u :: u in parts' && r(u)) && (!p(t) ==> exists u :: u in parts' && !r(u)) {
      var u := Counterpart(parts, parts', t);
    }
    forall u | u in parts' ensures (r(u) ==> exists t :: t in parts && p(t)) && (!r(u) ==> exists t :: t in parts && !p(t)) {
      var t := CounterpartOf(parts, parts', u);
    }
  }

  lemma Counterpart(parts: seq<TypeNode>, parts': seq<TypeNode>, t: TypeNode) returns (u: TypeNode)
    requires Matched(parts, parts') && t in parts
    ensures u in parts' && Reordered(t, u)
  {
    hide Reordered;
    assert MatchesSome(t, parts');
    u :| u in parts' && Reordered(t, u);
  }

  lemma CounterpartOf(parts: seq<TypeNode>, parts': seq<TypeNode>, u: TypeNode) returns (t: TypeNode)
    requires Matched(parts, parts') && u in parts'
    ensures t in parts && Reordered(t, u)
  {
    hide Reordered;
    assert SomeMatches(parts, u);
    t :| t in parts && Reordered(t, u);
  }

  lemma {:induction false} SameDecl(w: World, v: World, q: Reading, id: DeclId, steps: seq<Step>, n: nat)
    requires ReorderedWorld(w, v) && Closed(q) && id in w.decls
    ensures id in v.decls && HasDecl(w, q, id, steps, n) == HasDecl(v, q, id, steps, n)
    decreases n, 0, 0
  {
    assert ReorderedDecl(w.decls[id], v.decls[id]);
    if steps != [] && n > 0 {
      match w.decls[id]
      case Enum(_) =>
      case Alias(file, body) => SameNode(w, v, q, file, body, v.decls[id].body, steps, n - 1);
      case Interface(file, members, bases) =>
        if steps[0].Member? {
          var members', bases' := v.decls[id].members, v.decls[id].bases;
          FindReordered(members, members', steps[0].name);
          var p := FindProperty(members, steps[0].name);
          if p.Some? {
            SameBelow(w, v, q, file, p.value, FindProperty(members', steps[0].name).value, steps, n - 1);
          } else {
            var m := n - 1;
            forall base ensures HasBase(w, q, file, base, steps, m) == HasBase(v, q, file, base, steps, m) {
              SameBase(w, v, q, file, base, steps, m);
            }
            SameSome(bases, bases', base => HasBase(v, q, file, base, steps, m));
          }
        }
    }
  }

  lemma SameSome(a: seq<Base>, b: seq<Base>, holds: Base -> bool)
    requires forall base :: base in a <==> base in b
    ensures (exists i :: 0 <= i < |a| && holds(a[i])) <==> (exists i :: 0 <= i < |b| && holds(b[i]))
  {
    if i :| 0 <= i < |a| && holds(a[i]) {
      assert a[i] in b;
    }
    if i :| 0 <= i < |b| && holds(b[i]) {
      assert b[i] in a;
    }
  }

  lemma {:induction false} SameBase(w: World, v: World, q: Reading, file: string, base: Base, steps: seq<Step>, n: nat)
    requires ReorderedWorld(w, v) && Closed(q)
    ensures HasBase(w, q, file, base, steps, n) == HasBase(v, q, file, base, steps, n)
    decreases n, 0, 1
  {
    if base.NamedBase? && Resolve(w, file, base.name).Some? {
      SameDecl(w, v, q, Resolve(w, file, base.name).value, steps, n);
    }
  }

  // ---------------------------------------------------------------- answers never clash

  const NOTHING: Completion := (place, steps) => false

  ghost predicate Clash(r: Outcome, s: Outcome) {
    r.Done? && s.Done? && ((r.result == Found && s.result == Missing) || (r.result == Missing && s.result == Found))
  }

  /** Two lookups of one path, each in its own order at every depth, never answer found and missing. */
  lemma VisitingOrdersNeverClash(w: World, v: World, id: DeclId, steps: seq<Step>, seen1: set<Key>, fuel1: nat,
                                 seen2: set<Key>, fuel2: nat)
    requires ReorderedWorld(w, v) && id in w.decls
    ensures id in v.decls && !Clash(LookupDecl(w, id, steps, seen1, fuel1), LookupDecl(v, id, steps, seen2, fuel2))
  {
    hide ReorderedWorld, HasDecl;
    SameDecl(w, v, Reading(false, NOTHING), id, steps, 0);
    forall n: nat
      ensures HasDecl(w, Reading(false, NOTHING), id, steps, n) == HasDecl(v, Reading(false, NOTHING), id, steps, n)
    {
      SameDecl(w, v, Reading(false, NOTHING), id, steps, n);
    }
    DeclSound(w, NOTHING, id, steps, seen1, fuel1);
    DeclSound(v, NOTHING, id, steps, seen2, fuel2);
    if n: nat :| HasDecl(w, Reading(true, NOTHING), id, steps, n) {
      EveryIsSomeDecl(w, NOTHING, id, steps, n);
    }
    if n: nat :| HasDecl(v, Reading(true, NOTHING), id, steps, n) {
      EveryIsSomeDecl(v, NOTHING, id, steps, n);
    }
  }

  /** The same for two types. */
  lemma TypeOrdersNeverClash(w: World, v: World, file: string, a: TypeNode, b: TypeNode, steps: seq<Step>,
                             seen1: set<Key>, fuel1: nat, seen2: set<Key>, fuel2: nat)
    requires ReorderedWorld(w, v) && Reordered(a, b)
    ensures !Clash(LookupNode(w, file, a, steps, seen1, fuel1), LookupNode(v, file, b, steps, seen2, fuel2))
  {
    hide ReorderedWorld, Reordered, Has;
    forall n: nat
      ensures Has(w, Reading(false, NOTHING), file, a, steps, n) == Has(v, Reading(false, NOTHING), file, b, steps, n)
    {
      SameNode(w, v, Reading(false, NOTHING), file, a, b, steps, n);
    }
    NodeSound(w, NOTHING, file, a, steps, seen1, fuel1);
    NodeSound(v, NOTHING, file, b, steps, seen2, fuel2);
    if n: nat :| Has(w, Reading(true, NOTHING), file, a, steps, n) {
      EveryIsSome(w, NOTHING, file, a, steps, n);
    }
    if n: nat :| Has(v, Reading(true, NOTHING), file, b, steps, n) {
      EveryIsSome(v, NOTHING, file, b, steps, n);
    }
  }

  // ---------------------------------------------------------------- what counts as reordered

  lemma {:induction false} SameOrder(a: TypeNode)
    ensures Reordered(a, a)
    decreases a
  {
    match a
    case TypeLiteral(members) =>
      forall i | 0 <= i < |members| ensures ReorderedMember(members[i], members[i]) {
        if members[i].Property? && members[i].declared.Some? {
          SameOrder(members[i].declared.value);
        }
      }
    case Parenthesized(inner) => SameOrder(inner);
    case Readonly(inner) => SameOrder(inner);
    case Intersection(first, others) =>
      SameOrder(first);
      forall i | 0 <= i < |others| ensures Reordered(others[i], others[i]) {
        SameOrder(others[i]);
      }
      AnyOrder(first, others, first, others);
    case Union(first, others) =>
      SameOrder(first);
      forall i | 0 <= i < |others| ensures Reordered(others[i], others[i]) {
        SameOrder(others[i]);
      }
      AnyOrder(first, others, first, others);
    case ArrayOf(element) => SameOrder(element);
    case IndexedAccess(target, _) => SameOrder(target);
    case Reference(_, _, args) =>
      forall i | 0 <= i < |args| ensures Reordered(args[i], args[i]) {
        SameOrder(args[i]);
      }
    case Other(_) =>
  }

  /** A union or intersection is reordered when its parts are listed in any order. */
  lemma AnyOrder(first: TypeNode, others: seq<TypeNode>, first': TypeNode, others': seq<TypeNode>)
    requires SameParts([first] + others, [first'] + others')
    requires Reordered(first, first) && forall i | 0 <= i < |others| :: Reordered(others[i], others[i])
    ensures Reordered(Union(first, others), Union(first', others'))
    ensures Reordered(Intersection(first, others), Intersection(first', others'))
  {
    hide SameParts, MatchesSome;
    PartsFound(first, others, first', others');
  }

  lemma PartsFound(first: TypeNode, others: seq<TypeNode>, first': TypeNode, others': seq<TypeNode>)
    requires SameParts([first] + others, [first'] + others')
    requires Reordered(first, first) && forall i | 0 <= i < |others| :: Reordered(others[i], others[i])
    ensures var parts := [first'] + others';
            && MatchesSome(first, parts) && (forall i | 0 <= i < |others| :: MatchesSome(others[i], parts))
            && forall u | u in parts :: Reordered(first, u) || exists i :: 0 <= i < |others| && Reordered(others[i], u)
  {
    hide Reordered;
    var parts, parts' := [first] + others, [first'] + others';
    assert parts[0] == first && first in parts';
    forall i | 0 <= i < |others| ensures MatchesSome(others[i], parts') {
      assert parts[i + 1] == others[i] && others[i] in parts';
    }
    forall u | u in parts' ensures Reordered(first, u) || exists i :: 0 <= i < |others| && Reordered(others[i], u) {
      assert u in parts && (u == first || u in others);
    }
  }
}
