/** What it means for a key path to be present in a type, independently of any lookup. */
module ConfigPresence {
  import opened Results
  import opened ConfigTypes

  /** The places a lookup cannot see through. */
  datatype Blind =
    | AtNode(file: string, node: TypeNode)
    | AtDecl(id: DeclId)
    | AtProperty(property: TypeMember)
    | AtBase(file: string, base: Base)

  /** A completion says which paths exist beyond the blind places. */
  type Completion = (Blind, seq<Step>) -> bool

  /**
   * How presence reads: on a union in every branch or in some branch, beyond blind places as the completion says.
   */
  datatype Reading = Reading(every: bool, beyond: Completion)

  /** The path exists below the property that carries the name of its first step. */
  ghost predicate HasBelow(w: World, q: Reading, file: string, property: TypeMember, steps: seq<Step>, n: nat)
    requires property.Property? && steps != []
    decreases n, 1, property
  {
    || |steps| == 1
    || match property.declared
       case Some(t) => Has(w, q, file, t, steps[1..], n)
       case None => q.beyond(AtProperty(property), steps)
  }

  /** The path exists in the type, entering named declarations at most `n` deep. */
  ghost predicate Has(w: World, q: Reading, file: string, node: TypeNode, steps: seq<Step>, n: nat)
    decreases n, 1, node
  {
    || steps == []
    || match node
       case TypeLiteral(members) =>
         if steps[0].Element? then q.beyond(AtNode(file, node), steps)
         else
           var property := FindProperty(members, steps[0].name);
           property.Some? && HasBelow(w, q, file, property.value, steps, n)
       case Parenthesized(inner) => Has(w, q, file, inner, steps, n)
       case Intersection(first, others) =>
         || Has(w, q, file, first, steps, n)
         || exists i :: 0 <= i < |others| && Has(w, q, file, others[i], steps, n)
       case Union(first, others) =>
         if q.every then
           && Has(w, q, file, first, steps, n)
           && forall i | 0 <= i < |others| :: Has(w, q, file, others[i], steps, n)
         else
           || Has(w, q, file, first, steps, n)
           || exists i :: 0 <= i < |others| && Has(w, q, file, others[i], steps, n)
       case ArrayOf(element) =>
         if steps[0].Element? then Has(w, q, file, element, steps[1..], n) else q.beyond(AtNode(file, node), steps)
       case Readonly(inner) => Has(w, q, file, inner, steps, n)
       case IndexedAccess(target, key) =>
         if key.Some? then Has(w, q, file, target, [Member(key.value)] + steps, n) else q.beyond(AtNode(file, node),
             steps)
       case Reference(name, qualified, args) =>
         if name in PASSTHROUGH_WRAPPERS && args != [] then Has(w, q, file, args[0], steps, n)
         else if name in ARRAY_NAMES && args != [] then
           if steps[0].Element? then Has(w, q, file, args[0], steps[1..], n) else q.beyond(AtNode(file, node), steps)
         else
           var id := Resolve(w, file, name);
           if qualified || id.None? then q.beyond(AtNode(file, node), steps) else HasDecl(w, q, id.value, steps, n)
       case Other(_) => q.beyond(AtNode(file, node), steps)
  }

  ghost predicate HasDecl(w: World, q: Reading, id: DeclId, steps: seq<Step>, n: nat)
    requires id in w.decls
    decreases n, 0, 0
  {
    || steps == []
    || (n > 0 &&
        match w.decls[id]
        case Enum(_) => q.beyond(AtDecl(id), steps)
        case Alias(file, body) => Has(w, q, file, body, steps, n - 1)
        case Interface(file, members, bases) =>
          if steps[0].Element? then q.beyond(AtDecl(id), steps)
          else
            var property := FindProperty(members, steps[0].name);
            if property.Some? then HasBelow(w, q, file, property.value, steps, n - 1)
            else exists i :: 0 <= i < |bases| && HasBase(w, q, file, bases[i], steps, n - 1))
  }

  ghost predicate HasBase(w: World, q: Reading, file: string, base: Base, steps: seq<Step>, n: nat)
    decreases n, 0, 1
  {
    var id := if base.NamedBase? then Resolve(w, file, base.name) else None;
    if id.None? then q.beyond(AtBase(file, base), steps) else HasDecl(w, q, id.value, steps, n)
  }

  // ---------------------------------------------------------------- monotonicity

  lemma HasBelowMonotone(w: World, q: Reading, file: string, property: TypeMember, steps: seq<Step>, n: nat, m: nat)
    requires property.Property? && steps != [] && n <= m && HasBelow(w, q, file, property, steps, n)
    ensures HasBelow(w, q, file, property, steps, m)
    decreases n, 1, property
  {
    if |steps| > 1 && property.declared.Some? {
      HasMonotone(w, q, file, property.declared.value, steps[1..], n, m);
    }
  }

  /** Presence survives a deeper bound. */
  lemma {:induction false} HasMonotone(w: World, q: Reading, file: string, node: TypeNode, steps: seq<Step>, n: nat,
                                       m: nat)
    requires n <= m && Has(w, q, file, node, steps, n)
    ensures Has(w, q, file, node, steps, m)
    decreases n, 1, node
  {
    if steps != [] {
      match node
      case TypeLiteral(members) =>
        if steps[0].Member? {
          HasBelowMonotone(w, q, file, FindProperty(members, steps[0].name).value, steps, n, m);
        }
      case Parenthesized(inner) => HasMonotone(w, q, file, inner, steps, n, m);
      case Intersection(first, others) => PartsMonotone(w, q, file, node, first, others, steps, n, m);
      case Union(first, others) => PartsMonotone(w, q, file, node, first, others, steps, n, m);
      case ArrayOf(element) =>
        if steps[0].Element? {
          HasMonotone(w, q, file, element, steps[1..], n, m);
        }
      case Readonly(inner) => HasMonotone(w, q, file, inner, steps, n, m);
      case IndexedAccess(target, key) =>
        if key.Some? {
          HasMonotone(w, q, file, target, [Member(key.value)] + steps, n, m);
        }
      case Reference(name, qualified, args) =>
        if name in PASSTHROUGH_WRAPPERS && args != [] {
          HasMonotone(w, q, file, args[0], steps, n, m);
        } else if name in ARRAY_NAMES && args != [] {
          if steps[0].Element? {
            HasMonotone(w, q, file, args[0], steps[1..], n, m);
          }
        } else if !qualified && Resolve(w, file, name).Some? {
          HasDeclMonotone(w, q, Resolve(w, file, name).value, steps, n, m);
        }
      case Other(_) =>
    }
  }

  lemma {:induction false} PartsMonotone(w: World, q: Reading, file: string, node: TypeNode, first: TypeNode,
                                         others: seq<TypeNode>, steps: seq<Step>, n: nat, m: nat)
    requires n <= m && first < node && forall t | t in others :: t < node
    ensures Has(w, q, file, first, steps, n) ==> Has(w, q, file, first, steps, m)
    ensures forall i | 0 <= i < |others| && Has(w, q, file, others[i], steps, n) :: Has(w, q, file, others[i], steps, m)
    decreases n, 1, node, 0
  {
    if Has(w, q, file, first, steps, n) {
      HasMonotone(w, q, file, first, steps, n, m);
    }
    forall i | 0 <= i < |others| && Has(w, q, file, others[i], steps, n) ensures Has(w, q, file, others[i], steps, m) {
      assert others[i] in others;
      HasMonotone(w, q, file, others[i], steps, n, m);
    }
  }

  lemma {:induction false} HasDeclMonotone(w: World, q: Reading, id: DeclId, steps: seq<Step>, n: nat, m: nat)
    requires id in w.decls && n <= m && HasDecl(w, q, id, steps, n)
    ensures HasDecl(w, q, id, steps, m)
    decreases n, 0, 0
  {
    if steps != [] {
      match w.decls[id]
      case Enum(_) =>
      case Alias(file, body) => HasMonotone(w, q, file, body, steps, n - 1, m - 1);
      case Interface(file, members, bases) =>
        if steps[0].Member? {
          var property := FindProperty(members, steps[0].name);
          if property.Some? {
            HasBelowMonotone(w, q, file, property.value, steps, n - 1, m - 1);
          } else {
            var i :| 0 <= i < |bases| && HasBase(w, q, file, bases[i], steps, n - 1);
            HasBaseMonotone(w, q, file, bases[i], steps, n - 1, m - 1);
          }
        }
    }
  }

  lemma {:induction false} HasBaseMonotone(w: World, q: Reading, file: string, base: Base, steps: seq<Step>, n: nat,
                                           m: nat)
    requires n <= m && HasBase(w, q, file, base, steps, n)
    ensures HasBase(w, q, file, base, steps, m)
    decreases n, 0, 1
  {
    if base.NamedBase? && Resolve(w, file, base.name).Some? {
      HasDeclMonotone(w, q, Resolve(w, file, base.name).value, steps, n, m);
    }
  }

  // ---------------------------------------------------------------- the two readings

  /** The path exists on every branch, whatever lies beyond the blind places says. */
  ghost predicate Present(w: World, beyond: Completion, file: string, node: TypeNode, steps: seq<Step>) {
    exists n: nat :: Has(w, Reading(true, beyond), file, node, steps, n)
  }

  /** The path exists on no branch. */
  ghost predicate Absent(w: World, beyond: Completion, file: string, node: TypeNode, steps: seq<Step>) {
    forall n: nat :: !Has(w, Reading(false, beyond), file, node, steps, n)
  }

  ghost predicate PresentBelow(w: World, beyond: Completion, file: string, property: TypeMember, steps: seq<Step>)
    requires property.Property? && steps != []
  {
    exists n: nat :: HasBelow(w, Reading(true, beyond), file, property, steps, n)
  }

  ghost predicate AbsentBelow(w: World, beyond: Completion, file: string, property: TypeMember, steps: seq<Step>)
    requires property.Property? && steps != []
  {
    forall n: nat :: !HasBelow(w, Reading(false, beyond), file, property, steps, n)
  }

  ghost predicate PresentDecl(w: World, beyond: Completion, id: DeclId, steps: seq<Step>)
    requires id in w.decls
  {
    exists n: nat :: HasDecl(w, Reading(true, beyond), id, steps, n)
  }

  ghost predicate AbsentDecl(w: World, beyond: Completion, id: DeclId, steps: seq<Step>)
    requires id in w.decls
  {
    forall n: nat :: !HasDecl(w, Reading(false, beyond), id, steps, n)
  }

  ghost predicate PresentBase(w: World, beyond: Completion, file: string, base: Base, steps: seq<Step>) {
    exists n: nat :: HasBase(w, Reading(true, beyond), file, base, steps, n)
  }

  ghost predicate AbsentBase(w: World, beyond: Completion, file: string, base: Base, steps: seq<Step>) {
    forall n: nat :: !HasBase(w, Reading(false, beyond), file, base, steps, n)
  }

  lemma EveryIsSomeBelow(w: World, beyond: Completion, file: string, property: TypeMember, steps: seq<Step>, n: nat)
    requires property.Property? && steps != [] && HasBelow(w, Reading(true, beyond), file, property, steps, n)
    ensures HasBelow(w, Reading(false, beyond), file, property, steps, n)
    decreases n, 1, property
  {
    if |steps| > 1 && property.declared.Some? {
      EveryIsSome(w, beyond, file, property.declared.value, steps[1..], n);
    }
  }

  /** What every branch has, some branch has: unions and intersections are not empty. */
  lemma {:induction false} EveryIsSome(w: World, beyond: Completion, file: string, node: TypeNode, steps: seq<Step>,
                                       n: nat)
    requires Has(w, Reading(true, beyond), file, node, steps, n)
    ensures Has(w, Reading(false, beyond), file, node, steps, n)
    decreases n, 1, node
  {
    if steps != [] {
      match node
      case TypeLiteral(members) =>
        if steps[0].Member? {
          EveryIsSomeBelow(w, beyond, file, FindProperty(members, steps[0].name).value, steps, n);
        }
      case Parenthesized(inner) => EveryIsSome(w, beyond, file, inner, steps, n);
      case Intersection(first, others) =>
        if Has(w, Reading(true, beyond), file, first, steps, n) {
          EveryIsSome(w, beyond, file, first, steps, n);
        } else {
          var i :| 0 <= i < |others| && Has(w, Reading(true, beyond), file, others[i], steps, n);
          EveryIsSome(w, beyond, file, others[i], steps, n);
        }
      case Union(first, _) => EveryIsSome(w, beyond, file, first, steps, n);
      case ArrayOf(element) =>
        if steps[0].Element? {
          EveryIsSome(w, beyond, file, element, steps[1..], n);
        }
      case Readonly(inner) => EveryIsSome(w, beyond, file, inner, steps, n);
      case IndexedAccess(target, key) =>
        if key.Some? {
          EveryIsSome(w, beyond, file, target, [Member(key.value)] + steps, n);
        }
      case Reference(name, qualified, args) =>
        if name in PASSTHROUGH_WRAPPERS && args != [] {
          EveryIsSome(w, beyond, file, args[0], steps, n);
        } else if name in ARRAY_NAMES && args != [] {
          if steps[0].Element? {
            EveryIsSome(w, beyond, file, args[0], steps[1..], n);
          }
        } else if !qualified && Resolve(w, file, name).Some? {
          EveryIsSomeDecl(w, beyond, Resolve(w, file, name).value, steps, n);
        }
      case Other(_) =>
    }
  }

  lemma {:induction false} EveryIsSomeDecl(w: World, beyond: Completion, id: DeclId, steps: seq<Step>, n: nat)
    requires id in w.decls && HasDecl(w, Reading(true, beyond), id, steps, n)
    ensures HasDecl(w, Reading(false, beyond), id, steps, n)
    decreases n, 0, 0
  {
    if steps != [] {
      match w.decls[id]
      case Enum(_) =>
      case Alias(file, body) => EveryIsSome(w, beyond, file, body, steps, n - 1);
      case Interface(file, members, bases) =>
        if steps[0].Member? {
          var property := FindProperty(members, steps[0].name);
          if property.Some? {
            EveryIsSomeBelow(w, beyond, file, property.value, steps, n - 1);
          } else {
            var i :| 0 <= i < |bases| && HasBase(w, Reading(true, beyond), file, bases[i], steps, n - 1);
            EveryIsSomeBase(w, beyond, file, bases[i], steps, n - 1);
          }
        }
    }
  }

  lemma EveryIsSomeBase(w: World, beyond: Completion, file: string, base: Base, steps: seq<Step>, n: nat)
    requires HasBase(w, Reading(true, beyond), file, base, steps, n)
    ensures HasBase(w, Reading(false, beyond), file, base, steps, n)
    decreases n, 0, 1
  {
    if base.NamedBase? && Resolve(w, file, base.name).Some? {
      EveryIsSomeDecl(w, beyond, Resolve(w, file, base.name).value, steps, n);
    }
  }
}
