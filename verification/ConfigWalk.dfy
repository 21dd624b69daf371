/**
 * The lookup as it runs: one mutable set of seen keys, shared by every branch of a walk. Wherever
 * the fuelled lookup answers, the walk ends with the same answer and the same seen keys.
 */
module ConfigWalk {
  import opened Results
  import opened ConfigTypes
  import opened ConfigPresence
  import opened ConfigSoundness
  import opened ConfigExactness

  function PrependResults(results: seq<PathLookup>, r: Outcomes): Outcomes {
    match r
    case StuckParts => StuckParts
    case DoneParts(more, seen) => DoneParts(results + more, seen)
  }

  /** The first of the remaining bases joins the results so far. */
  lemma OneMoreBase(w: World, file: string, bases: seq<Base>, i: nat, steps: seq<Step>, seen: set<Key>, fuel: nat,
                    results: seq<PathLookup>)
    requires i < |bases|
    ensures var one := LookupBase(w, file, bases[i], steps, seen, fuel);
            PrependResults(results, LookupBases(w, file, bases[i..], steps, seen, fuel)) ==
            if one.Stuck? then StuckParts
            else PrependResults(results + [one.result], LookupBases(w, file, bases[i + 1..], steps, one.seen, fuel))
  {
    hide LookupBase;
    assert bases[i..][0] == bases[i] && bases[i..][1..] == bases[i + 1..];
    var one := LookupBase(w, file, bases[i], steps, seen, fuel);
    if one.Done? {
      var more := LookupBases(w, file, bases[i + 1..], steps, one.seen, fuel);
      if more.DoneParts? {
        assert results + ([one.result] + more.results) == results + [one.result] + more.results;
      }
    }
  }

  class Walk {
    const w: World
    var seen: set<Key>

    constructor (w: World)
      ensures this.w == w && seen == {}
    {
      this.w := w;
      seen := {};
    }

    /** A member list: the property named by the first step, if the list has one. */
    method IntoMembers(file: string, members: seq<TypeMember>, steps: seq<Step>,
                       ghost fuel: nat) returns (r: Option<PathLookup>)
      requires steps != [] && steps[0].Member?
      requires var p := FindProperty(members, steps[0].name);
               p.Some? ==> LookupProperty(w, file, p.value, steps, seen, fuel).Done?
      modifies this
      ensures var p := FindProperty(members, steps[0].name);
              if p.None? then r == None && seen == old(seen)
              else r.Some? && LookupProperty(w, file, p.value, steps, old(seen), fuel) == Done(r.value, seen)
      decreases fuel, 1, members
    {
      var p := FindProperty(members, steps[0].name);
      if p.None? {
        return None;
      }
      if |steps| == 1 {
        return Some(Found);
      }
      if p.value.declared.None? {
        return Some(Unknown);
      }
      var below := Node(file, p.value.declared.value, steps[1..], fuel);
      r := Some(below);
    }

    /** Walk the steps through a type. */
    method Node(file: string, node: TypeNode, steps: seq<Step>, ghost fuel: nat) returns (r: PathLookup)
      requires LookupNode(w, file, node, steps, seen, fuel).Done?
      modifies this
      ensures LookupNode(w, file, node, steps, old(seen), fuel) == Done(r, seen)
      decreases fuel, 1, node
    {
      if steps == [] {
        return Found;
      }
      match node
      case TypeLiteral(members) =>
        if steps[0].Element? {
          return Unknown;
        }
        var direct := IntoMembers(file, members, steps, fuel);
        r := if direct.Some? then direct.value else Missing;
      case Parenthesized(inner) => r := Node(file, inner, steps, fuel);
      case Intersection(first, others) =>
        var head := Node(file, first, steps, fuel);
        var tail := Parts(file, others, steps, fuel);
        r := Combine([head] + tail);
      case Union(first, others) =>
        var head := Node(file, first, steps, fuel);
        var tail := Parts(file, others, steps, fuel);
        r := Agree([head] + tail);
      case ArrayOf(element) =>
        if steps[0].Element? {
          r := Node(file, element, steps[1..], fuel);
        } else {
          r := Unknown;
        }
      case Readonly(inner) => r := Node(file, inner, steps, fuel);
      case IndexedAccess(target, key) =>
        if key.Some? {
          r := Node(file, target, [Member(key.value)] + steps, fuel);
        } else {
          r := Unknown;
        }
      case Reference(name, qualified, args) =>
        if name in PASSTHROUGH_WRAPPERS && args != [] {
          r := Node(file, args[0], steps, fuel);
        } else if name in ARRAY_NAMES && args != [] {
          if steps[0].Element? {
            r := Node(file, args[0], steps[1..], fuel);
          } else {
            r := Unknown;
          }
        } else if qualified || Resolve(w, file, name).None? {
          r := Unknown;
        } else {
          r := Decl(Resolve(w, file, name).value, steps, fuel);
        }
      case Other(_) => r := Unknown;
    }

    /** Every part in turn, each seeing what the parts before it have seen. */
    method Parts(file: string, parts: seq<TypeNode>, steps: seq<Step>, ghost fuel: nat) returns (results: seq<PathLookup>)
      requires LookupParts(w, file, parts, steps, seen, fuel).DoneParts?
      modifies this
      ensures LookupParts(w, file, parts, steps, old(seen), fuel) == DoneParts(results, seen)
      decreases fuel, 1, parts
    {
      if parts == [] {
        return [];
      }
      var one := Node(file, parts[0], steps, fuel);
      var more := Parts(file, parts[1..], steps, fuel);
      results := [one] + more;
    }

    /** Enter a declaration and remember it with the number of steps left, unless that was done before. */
    method Decl(id: DeclId, steps: seq<Step>, ghost fuel: nat) returns (r: PathLookup)
      requires id in w.decls && LookupDecl(w, id, steps, seen, fuel).Done?
      modifies this
      ensures LookupDecl(w, id, steps, old(seen), fuel) == Done(r, seen)
      decreases fuel, 0, 0
    {
      if steps == [] {
        return Found;
      }
      if w.decls[id].Enum? {
        return Unknown;
      }
      if (id, |steps|) in seen {
        return Unknown;
      }
      seen := seen + {(id, |steps|)};
      match w.decls[id]
      case Alias(file, body) => r := Node(file, body, steps, fuel - 1);
      case Interface(file, members, bases) =>
        if steps[0].Element? {
          return Unknown;
        }
        var direct := IntoMembers(file, members, steps, fuel - 1);
        if direct.Some? {
          return direct.value;
        }
        if bases == [] {
          return Missing;
        }
        var results := Bases(file, bases, steps, fuel - 1);
        r := Combine(results);
    }

    /** Every base in turn. */
    method Bases(file: string, bases: seq<Base>, steps: seq<Step>, ghost fuel: nat) returns (results: seq<PathLookup>)
      requires LookupBases(w, file, bases, steps, seen, fuel).DoneParts?
      modifies this
      ensures LookupBases(w, file, bases, steps, old(seen), fuel) == DoneParts(results, seen)
      decreases fuel, 1, bases
    {
      results := [];
      for i := 0 to |bases|
        invariant PrependResults(results, LookupBases(w, file, bases[i..], steps, seen, fuel)) ==
                  LookupBases(w, file, bases, steps, old(seen), fuel)
      {
        OneMoreBase(w, file, bases, i, steps, seen, fuel, results);
        var id := if bases[i].OtherBase? then None else Resolve(w, file, bases[i].name);
        if id.None? {
          results := results + [Unknown];
        } else {
          var r := Decl(id.value, steps, fuel);
          results := results + [r];
        }
      }
    }
  }

  /**
   * Look a path up in a declaration, from nothing seen. Whenever the walk ends, its definite answers
   * are right for every completion of what it cannot see. Missing is answered exactly when the path is
   * absent for every completion and no key is met twice; where none is, found exactly when it is present.
   */
  method LookupPath(w: World, id: DeclId, steps: seq<Step>, ghost fuel: nat) returns (r: PathLookup)
    requires id in w.decls && LookupDecl(w, id, steps, {}, fuel).Done?
    ensures r == LookupDecl(w, id, steps, {}, fuel).result
    ensures r == Found ==> forall beyond: Completion ::
              PresentDecl(w, beyond, id, steps) && !AbsentDecl(w, beyond, id, steps)
    ensures r == Missing <==>
              EntersOnce(w, id, steps, fuel + 1) && forall beyond: Completion :: AbsentDecl(w, beyond, id, steps)
    ensures r == Missing ==> forall beyond: Completion :: !PresentDecl(w, beyond, id, steps)
    ensures EntersOnce(w, id, steps, fuel + 1) ==>
              (r == Found <==> forall beyond: Completion :: PresentDecl(w, beyond, id, steps))
  {
    hide PresentDecl, AbsentDecl, EntersOnce;
    var walk := new Walk(w);
    r := walk.Decl(id, steps, fuel);
    forall beyond: Completion
      ensures r == Found ==> PresentDecl(w, beyond, id, steps) && !AbsentDecl(w, beyond, id, steps)
      ensures r == Missing ==> !PresentDecl(w, beyond, id, steps)
    {
      LookupIsSound(w, beyond, id, steps, {}, fuel);
    }
    MissingIff(w, id, steps, fuel);
    if EntersOnce(w, id, steps, fuel + 1) {
      FoundIff(w, id, steps, fuel);
    }
  }
}
