/** Three-valued lookup of a configuration key path in declared types. */
module ConfigTypes {
  import opened Results

  // ---------------------------------------------------------------- types and declarations

  datatype Step = Member(name: string) | Element

  datatype PathLookup = Found | Missing | Unknown

  type DeclId = string

  datatype TypeNode =
    | TypeLiteral(members: seq<TypeMember>)
    | Parenthesized(inner: TypeNode)
    | Intersection(first: TypeNode, others: seq<TypeNode>)
    | Union(first: TypeNode, others: seq<TypeNode>)
    | ArrayOf(element: TypeNode)
    | Readonly(inner: TypeNode)
    | IndexedAccess(target: TypeNode, key: Option<string>)
    | Reference(name: string, qualified: bool, args: seq<TypeNode>)
    | Other(text: string)

  datatype TypeMember = Property(name: string, declared: Option<TypeNode>) | OtherMember

  datatype Base = NamedBase(name: string) | OtherBase(text: string)

  datatype Declaration =
    | Interface(file: string, members: seq<TypeMember>, bases: seq<Base>)
    | Alias(file: string, body: TypeNode)
    | Enum(file: string)

  /** All declarations in reach, and what a name resolves to in each file. */
  datatype World = World(decls: map<DeclId, Declaration>, names: map<(string, string), DeclId>)

  function Resolve(w: World, file: string, name: string): (r: Option<DeclId>)
    ensures r.Some? ==> r.value in w.decls
  {
    if (file, name) in w.names && w.names[(file, name)] in w.decls then Some(w.names[(file, name)]) else None
  }

  const PASSTHROUGH_WRAPPERS := {"Partial", "Required", "Readonly", "NonNullable"}
  const ARRAY_NAMES := {"Array", "ReadonlyArray"}

  /** The first property of that name. */
  function FindProperty(members: seq<TypeMember>, name: string): (r: Option<TypeMember>)
    ensures r.Some? ==> r.value in members && r.value.Property? && r.value.name == name
  {
    if members == [] then None
    else if members[0].Property? && members[0].name == name then Some(members[0])
    else FindProperty(members[1..], name)
  }

  /** A property is found exactly when one has the name, and no earlier one has it. */
  lemma {:induction false} FindsFirst(members: seq<TypeMember>, name: string)
    ensures var r := FindProperty(members, name);
            if r.Some? then
              exists i :: 0 <= i < |members| && members[i] == r.value && NoneNamed(members[..i], name)
            else
              NoneNamed(members, name)
  {
    if members != [] && !(members[0].Property? && members[0].name == name) {
      FindsFirst(members[1..], name);
      if FindProperty(members, name).Some? {
        var i :| 0 <= i < |members[1..]| && members[1..][i] == FindProperty(members, name).value
                 && NoneNamed(members[1..][..i], name);
        assert members[..i + 1] == [members[0]] + members[1..][..i];
        assert members[i + 1] == FindProperty(members, name).value && NoneNamed(members[..i + 1], name);
      }
    } else if members != [] {
      assert members[..0] == [] && NoneNamed(members[..0], name);
    }
  }

  ghost predicate NoneNamed(members: seq<TypeMember>, name: string) {
    forall m | m in members && m.Property? :: m.name != name
  }

  // ---------------------------------------------------------------- the lookup

  /** A named declaration together with the number of steps left when it was entered. */
  type Key = (DeclId, nat)

  /** `Stuck` means the fuel ran out; `Done` carries the answer and the grown set of seen keys. */
  datatype Outcome = Stuck | Done(result: PathLookup, seen: set<Key>)

  datatype Outcomes = StuckParts | DoneParts(results: seq<PathLookup>, seen: set<Key>)

  /** Any found wins, else any unknown taints, else missing. */
  function Combine(results: seq<PathLookup>): PathLookup {
    if Found in results then Found else if Unknown in results then Unknown else Missing
  }

  /** On a union only agreement of all branches is definite. */
  function Agree(results: seq<PathLookup>): PathLookup {
    if forall r | r in results :: r == Found then Found
    else if forall r | r in results :: r == Missing then Missing
    else Unknown
  }

  /** Look into a property that carries the name of the first step. */
  function LookupProperty(w: World, file: string, property: TypeMember, steps: seq<Step>, seen: set<Key>,
                          fuel: nat): Outcome
    requires property.Property? && steps != []
    decreases fuel, 1, property
  {
    if |steps| == 1 then Done(Found, seen)
    else match property.declared
      case Some(t) => LookupNode(w, file, t, steps[1..], seen, fuel)
      case None => Done(Unknown, seen)
  }

  /** Walk a path through a type. Fuel is spent on entering declarations only. */
  function LookupNode(w: World, file: string, node: TypeNode, steps: seq<Step>, seen: set<Key>, fuel: nat): Outcome
    decreases fuel, 1, node
  {
    if steps == [] then Done(Found, seen)
    else match node
      case TypeLiteral(members) =>
        if steps[0].Element? then Done(Unknown, seen)
        else
          var property := FindProperty(members, steps[0].name);
          if property.Some? then LookupProperty(w, file, property.value, steps, seen, fuel) else Done(Missing, seen)
      case Parenthesized(inner) => LookupNode(w, file, inner, steps, seen, fuel)
      case Intersection(first, others) =>
        var head := LookupNode(w, file, first, steps, seen, fuel);
        if head.Stuck? then Stuck
        else
          var tail := LookupParts(w, file, others, steps, head.seen, fuel);
          if tail.StuckParts? then Stuck else Done(Combine([head.result] + tail.results), tail.seen)
      case Union(first, others) =>
        var head := LookupNode(w, file, first, steps, seen, fuel);
        if head.Stuck? then Stuck
        else
          var tail := LookupParts(w, file, others, steps, head.seen, fuel);
          if tail.StuckParts? then Stuck else Done(Agree([head.result] + tail.results), tail.seen)
      case ArrayOf(element) =>
        if steps[0].Element? then LookupNode(w, file, element, steps[1..], seen, fuel) else Done(Unknown, seen)
      case Readonly(inner) => LookupNode(w, file, inner, steps, seen, fuel)
      case IndexedAccess(target, key) =>
        if key.Some? then LookupNode(w, file, target, [Member(key.value)] + steps, seen, fuel) else Done(Unknown, seen)
      case Reference(name, qualified, args) =>
        if name in PASSTHROUGH_WRAPPERS && args != [] then LookupNode(w, file, args[0], steps, seen, fuel)
        else if name in ARRAY_NAMES && args != [] then
          if steps[0].Element? then LookupNode(w, file, args[0], steps[1..], seen, fuel) else Done(Unknown, seen)
        else if qualified then Done(Unknown, seen)
        else
          var id := Resolve(w, file, name);
          if id.None? then Done(Unknown, seen) else LookupDecl(w, id.value, steps, seen, fuel)
      case Other(_) => Done(Unknown, seen)
  }

  /** Parts of a union or intersection, left to right, all adding to one set of seen keys. */
  function LookupParts(w: World, file: string, parts: seq<TypeNode>, steps: seq<Step>, seen: set<Key>,
                       fuel: nat): (r: Outcomes)
    ensures r.DoneParts? ==> |r.results| == |parts|
    decreases fuel, 1, parts
  {
    if parts == [] then DoneParts([], seen)
    else
      var one := LookupNode(w, file, parts[0], steps, seen, fuel);
      if one.Stuck? then StuckParts
      else
        var more := LookupParts(w, file, parts[1..], steps, one.seen, fuel);
        if more.StuckParts? then StuckParts else DoneParts([one.result] + more.results, more.seen)
  }

  /** Enter a named declaration, unless it was already entered with as many steps left. */
  function LookupDecl(w: World, id: DeclId, steps: seq<Step>, seen: set<Key>, fuel: nat): Outcome
    requires id in w.decls
    decreases fuel, 0, 0
  {
    if steps == [] then Done(Found, seen)
    else if w.decls[id].Enum? then Done(Unknown, seen)
    else if (id, |steps|) in seen then Done(Unknown, seen)
    else if fuel == 0 then Stuck
    else
      var seen' := seen + {(id, |steps|)};
      match w.decls[id]
      case Alias(file, body) => LookupNode(w, file, body, steps, seen', fuel - 1)
      case Interface(file, members, bases) =>
        if steps[0].Element? then Done(Unknown, seen')
        else
          var property := FindProperty(members, steps[0].name);
          if property.Some? then LookupProperty(w, file, property.value, steps, seen', fuel - 1)
          else if bases == [] then Done(Missing, seen')
          else
            var parts := LookupBases(w, file, bases, steps, seen', fuel - 1);
            if parts.StuckParts? then Stuck else Done(Combine(parts.results), parts.seen)
  }

  function LookupBases(w: World, file: string, bases: seq<Base>, steps: seq<Step>, seen: set<Key>,
                       fuel: nat): (r: Outcomes)
    ensures r.DoneParts? ==> |r.results| == |bases|
    decreases fuel, 1, bases
  {
    if bases == [] then DoneParts([], seen)
    else
      var one := LookupBase(w, file, bases[0], steps, seen, fuel);
      if one.Stuck? then StuckParts
      else
        var more := LookupBases(w, file, bases[1..], steps, one.seen, fuel);
        if more.StuckParts? then StuckParts else DoneParts([one.result] + more.results, more.seen)
  }

  function LookupBase(w: World, file: string, base: Base, steps: seq<Step>, seen: set<Key>, fuel: nat): Outcome
    decreases fuel, 0, 1
  {
    if base.OtherBase? then Done(Unknown, seen)
    else
      var id := Resolve(w, file, base.name);
      if id.None? then Done(Unknown, seen) else LookupDecl(w, id.value, steps, seen, fuel)
  }
}
