/** The worklist that pastes a configuration type together with every package-local type it needs. */
module DeclarationPaste {
  import opened Results

  /** A declaration's source pointer. */
  datatype DeclKey = DeclKey(file: string, line: nat)

  datatype TypeRef = TypeRef(alias: string, imported: string, specifier: string)

  /** What a type name stands for in a file. */
  datatype Resolution = Unresolved | Imported(ref: TypeRef) | Declared(key: DeclKey)

  /** A type name met in a file. */
  datatype Mention = Mention(name: string, file: string)

  /** Name resolution, the type names each declaration mentions, and the global names. */
  datatype Sources = Sources(resolutions: map<Mention, Resolution>, mentions: map<DeclKey, seq<string>>,
      globals: set<string>)

  datatype Violation =
    | NotDeclared(mention: Mention)
    | ConfigTypeImported(name: string, ref: TypeRef)
    | DeclaredAndImported(name: string, key: DeclKey, ref: TypeRef)
    | TwoImports(name: string, first: TypeRef, second: TypeRef)
    | TwoDeclarations(name: string, prior: DeclKey, other: DeclKey)
    | ImportedAndDeclared(name: string, ref: TypeRef, key: DeclKey)

  function ResolveMention(s: Sources, m: Mention): Resolution {
    if m in s.resolutions then s.resolutions[m] else Unresolved
  }

  /** The non-global names a declaration mentions, in its own file. */
  function Needs(s: Sources, key: DeclKey): (needs: seq<Mention>)
    ensures forall m :: m in needs <==>
              key in s.mentions && m.name in s.mentions[key] && m.name !in s.globals && m.file == key.file
  {
    if key in s.mentions then NonGlobal(s, key.file, s.mentions[key]) else []
  }

  function NonGlobal(s: Sources, file: string, names: seq<string>): (needs: seq<Mention>)
    ensures forall m :: m in needs <==> m.name in names && m.name !in s.globals && m.file == file
  {
    if names == [] then []
    else if names[0] in s.globals then NonGlobal(s, file, names[1..])
    else [Mention(names[0], file)] + NonGlobal(s, file, names[1..])
  }

  /** The non-global names stay in the order in which the declaration mentions them. */
  lemma {:induction false} NeedsInOrder(s: Sources, file: string, front: seq<string>, n: string, back: seq<string>)
    ensures NonGlobal(s, file, front + [n] + back) ==
            NonGlobal(s, file, front) + (if n in s.globals then [] else [Mention(n, file)]) + NonGlobal(s, file, back)
  {
    var names := front + [n] + back;
    if front == [] {
      assert names[0] == n && names[1..] == back;
    } else {
      assert names[0] == front[0] && names[1..] == front[1..] + [n] + back;
      NeedsInOrder(s, file, front[1..], n, back);
    }
  }

  // ---------------------------------------------------------------- what a good paste is

  /** The mention is pasted or recorded as an import, exactly as it resolves. */
  ghost predicate Covered(s: Sources, pasted: map<string, DeclKey>, refs: map<string, TypeRef>, m: Mention) {
    match ResolveMention(s, m)
    case Unresolved => false
    case Imported(ref) => m.name in refs && refs[m.name] == ref
    case Declared(key) => m.name in pasted && pasted[m.name] == key
  }

  /** Every name a pasted declaration mentions is covered, and no name is both pasted and imported. */
  ghost predicate IsClosedPaste(s: Sources, root: Mention, pastes: seq<DeclKey>, pasted: map<string, DeclKey>,
                                refs: map<string, TypeRef>) {
    && pastes != [] && root.name in pasted && pasted[root.name] == pastes[0] && ResolveMention(s, root) == Declared(pastes[0])
    && (forall n | n in pasted :: pasted[n] in pastes)
    && (forall key | key in pastes :: exists n :: n in pasted && pasted[n] == key)
    && (forall key, m | key in pastes && m in Needs(s, key) :: Covered(s, pasted, refs, m))
    && pasted.Keys !! refs.Keys
  }

  /** A set of mentions that holds the root and whatever its declarations mention. */
  ghost predicate IsClosure(s: Sources, root: Mention, mentions: set<Mention>) {
    && root in mentions
    && forall m, n | m in mentions && ResolveMention(s, m).Declared? && n in Needs(s, ResolveMention(s, m).key) :: n in mentions
  }

  /** Within the set every name means one thing, and the root name is declared wherever it is met. */
  ghost predicate Unambiguous(s: Sources, root: Mention, mentions: set<Mention>) {
    && (forall m | m in mentions :: ResolveMention(s, m) != Unresolved)
    && (forall m, n | m in mentions && n in mentions && m.name == n.name :: ResolveMention(s, m) == ResolveMention(s, n))
    && ResolveMention(s, root).Declared?
  }

  /** Every entry came from a mention in the set. */
  ghost predicate OnlyFrom(s: Sources, mentions: set<Mention>, pasted: map<string, DeclKey>, refs: map<string, TypeRef>) {
    && (forall n | n in pasted :: exists m :: m in mentions && m.name == n && ResolveMention(s, m) == Declared(pasted[n]))
    && (forall n | n in refs :: exists m :: m in mentions && m.name == n && ResolveMention(s, m) == Imported(refs[n]))
  }

  /** All names any declaration mentions. */
  ghost function AllNames(s: Sources): set<string> {
    set key, n | key in s.mentions && n in s.mentions[key] :: n
  }

  /** The root and every mention any declaration makes. */
  ghost function AllMentions(s: Sources, root: Mention): set<Mention> {
    {root} + set key, n | key in s.mentions && n in s.mentions[key] :: Mention(n, key.file)
  }

  /** All mentions together are a closed set, so one always exists. */
  lemma AllMentionsClosed(s: Sources, root: Mention)
    ensures IsClosure(s, root, AllMentions(s, root))
  {
    forall m, n | m in AllMentions(s, root) && ResolveMention(s, m).Declared? && n in Needs(s, ResolveMention(s, m).key)
      ensures n in AllMentions(s, root)
    {
      var key := ResolveMention(s, m).key;
      assert key in s.mentions && n.name in s.mentions[key] && n == Mention(n.name, key.file);
    }
  }

  // ---------------------------------------------------------------- the loop's invariant

  /** Everything queued so far is waiting or covered, unless something was reported. */
  ghost predicate Pasting(s: Sources, root: Mention, mentions: set<Mention>, queue: seq<Mention>, queued: set<Mention>,
                          pastes: seq<DeclKey>, pasted: map<string, DeclKey>, refs: map<string, TypeRef>, clean: bool) {
    && root in queued && queued <= mentions
    && (forall m | m in queue :: m in queued && m.name in AllNames(s) + {root.name})
    && (clean ==> forall m | m in queued :: m in queue || Covered(s, pasted, refs, m))
    && (forall key, m | key in pastes && m in Needs(s, key) :: m in queued)
    && (forall n | n in pasted :: pasted[n] in pastes)
    && (forall key | key in pastes :: exists n :: n in pasted && pasted[n] == key)
    && pasted.Keys !! refs.Keys && root.name !in refs
    && (pastes == [] ==> clean ==> queue == [root])
    && (pastes != [] && clean ==> ResolveMention(s, root) == Declared(pastes[0]) && Covered(s, pasted, refs, root))
    && OnlyFrom(s, mentions, pasted, refs)
    && (Unambiguous(s, root, mentions) ==> clean)
  }

  lemma StillCovered(s: Sources, pasted: map<string, DeclKey>, refs: map<string, TypeRef>, m: Mention, name: string,
                     key: DeclKey, ref: TypeRef)
    requires Covered(s, pasted, refs, m)
    ensures name !in pasted ==> Covered(s, pasted[name := key], refs, m)
    ensures (name in refs ==> refs[name] == ref) ==> Covered(s, pasted, refs[name := ref], m)
  {
  }

  /** A conflicting mention is reported; the mentions are then not unambiguous. */
  lemma Report(s: Sources, root: Mention, mentions: set<Mention>, queue: seq<Mention>, queued: set<Mention>,
               pastes: seq<DeclKey>, pasted: map<string, DeclKey>, refs: map<string, TypeRef>, clean: bool)
    requires queue != [] && Pasting(s, root, mentions, queue, queued, pastes, pasted, refs, clean)
    requires var item, to := queue[0], ResolveMention(s, queue[0]);
             || to == Unresolved
             || (to.Imported? && (item.name == root.name || item.name in pasted || (item.name in refs &&
                 refs[item.name] != to.ref)))
             || (to.Declared? && ((item.name in pasted && pasted[item.name] != to.key) || item.name in refs))
    ensures Pasting(s, root, mentions, queue[1..], queued, pastes, pasted, refs, false)
  {
    var item := queue[0];
    assert item in queued;
  }

  /** A mention that is already covered is dropped. */
  lemma Skip(s: Sources, root: Mention, mentions: set<Mention>, queue: seq<Mention>, queued: set<Mention>,
             pastes: seq<DeclKey>, pasted: map<string, DeclKey>, refs: map<string, TypeRef>, clean: bool)
    requires queue != [] && Pasting(s, root, mentions, queue, queued, pastes, pasted, refs, clean)
    requires Covered(s, pasted, refs, queue[0]) && pastes != []
    ensures Pasting(s, root, mentions, queue[1..], queued, pastes, pasted, refs, clean)
  {
    assert forall m | m in queue :: m == queue[0] || m in queue[1..];
  }

  /** An imported mention is recorded once. */
  lemma NoteImport(s: Sources, root: Mention, mentions: set<Mention>, queue: seq<Mention>, queued: set<Mention>,
                   pastes: seq<DeclKey>, pasted: map<string, DeclKey>, refs: map<string, TypeRef>, clean: bool,
                       ref: TypeRef)
    requires queue != [] && Pasting(s, root, mentions, queue, queued, pastes, pasted, refs, clean)
    requires ResolveMention(s, queue[0]) == Imported(ref) && queue[0].name !in pasted && queue[0].name != root.name
    requires queue[0].name in refs ==> refs[queue[0].name] == ref
    ensures Pasting(s, root, mentions, queue[1..], queued, pastes, pasted, refs[queue[0].name := ref], clean)
  {
    var item, refs' := queue[0], refs[queue[0].name := ref];
    assert item in queued && item in mentions;
    assert forall m | m in queue :: m == item || m in queue[1..];
    forall m | clean && m in queued ensures m in queue[1..] || Covered(s, pasted, refs', m) {
      if Covered(s, pasted, refs, m) {
        StillCovered(s, pasted, refs, m, item.name, DeclKey("", 0), ref);
      }
    }
    if clean && pastes != [] {
      StillCovered(s, pasted, refs, root, item.name, DeclKey("", 0), ref);
    }
  }

  /** A new declaration is pasted and its own mentions are queued. */
  lemma PasteNew(s: Sources, root: Mention, mentions: set<Mention>, queue: seq<Mention>, queued: set<Mention>,
                 pastes: seq<DeclKey>, pasted: map<string, DeclKey>, refs: map<string, TypeRef>, clean: bool,
                     key: DeclKey)
    requires queue != [] && Pasting(s, root, mentions, queue, queued, pastes, pasted, refs, clean)
    requires IsClosure(s, root, mentions)
    requires ResolveMention(s, queue[0]) == Declared(key) && queue[0].name !in pasted && queue[0].name !in refs
    ensures Pasting(s, root, mentions, queue[1..] + Needs(s, key), queued + (set m | m in Needs(s, key)),
                    pastes + [key], pasted[queue[0].name := key], refs, clean)
  {
    hide AllNames, Unambiguous, IsClosure, Covered, OnlyFrom;
    var item, queue', queued' := queue[0], queue[1..] + Needs(s, key), queued + (set m | m in Needs(s, key));
    var pastes', pasted' := pastes + [key], pasted[queue[0].name := key];
    assert item in queued && item in mentions;
    NeedsInside(s, root, mentions, item, key);
    assert queued' <= mentions;
    PastedGrows(s, mentions, pastes, pasted, refs, item, key);
    PastedCovers(s, pasted, refs, item, key);
    forall m | clean && m in queued' ensures m in queue' || Covered(s, pasted', refs, m) {
      if m in queued && m !in queue {
        StillCovered(s, pasted, refs, m, item.name, key, TypeRef("", "", ""));
      }
    }
    if clean && pastes != [] {
      StillCovered(s, pasted, refs, root, item.name, key, TypeRef("", "", ""));
    }
  }

  lemma PastedCovers(s: Sources, pasted: map<string, DeclKey>, refs: map<string, TypeRef>, item: Mention, key: DeclKey)
    requires ResolveMention(s, item) == Declared(key)
    ensures Covered(s, pasted[item.name := key], refs, item)
  {
  }

  lemma NeedsInside(s: Sources, root: Mention, mentions: set<Mention>, item: Mention, key: DeclKey)
    requires IsClosure(s, root, mentions) && item in mentions && ResolveMention(s, item) == Declared(key)
    ensures forall m | m in Needs(s, key) :: m in mentions && m.name in AllNames(s)
  {
  }

  lemma PastedGrows(s: Sources, mentions: set<Mention>, pastes: seq<DeclKey>, pasted: map<string, DeclKey>,
                    refs: map<string, TypeRef>, item: Mention, key: DeclKey)
    requires OnlyFrom(s, mentions, pasted, refs) && item in mentions && ResolveMention(s, item) == Declared(key)
    requires item.name !in pasted && forall k | k in pastes :: exists n :: n in pasted && pasted[n] == k
    ensures OnlyFrom(s, mentions, pasted[item.name := key], refs)
    ensures var pasted' := pasted[item.name := key];
            forall k | k in pastes + [key] :: exists n :: n in pasted' && pasted'[n] == k
  {
    var pasted' := pasted[item.name := key];
    forall k | k in pastes + [key] ensures exists n :: n in pasted' && pasted'[n] == k {
      if k in pastes {
        var n :| n in pasted && pasted[n] == k;
        assert n in pasted' && pasted'[n] == k;
      } else {
        assert item.name in pasted';
      }
    }
  }

  lemma Shrinks(names: set<string>, pasted: map<string, DeclKey>, n: string, key: DeclKey)
    requires n in names && n !in pasted
    ensures names - pasted[n := key].Keys < names - pasted.Keys
  {
    assert n in names - pasted.Keys;
  }

  // ---------------------------------------------------------------- what is reported

  /** Some mention of the name in the set resolves like this. */
  ghost predicate Means(s: Sources, mentions: set<Mention>, name: string, to: Resolution) {
    exists m :: m in mentions && m.name == name && ResolveMention(s, m) == to
  }

  /** The report tells of a conflict there is. */
  ghost predicate Justified(s: Sources, root: Mention, mentions: set<Mention>, v: Violation) {
    match v
    case NotDeclared(m) => m in mentions && ResolveMention(s, m) == Unresolved
    case ConfigTypeImported(name, ref) => name == root.name && Means(s, mentions, name, Imported(ref))
    case DeclaredAndImported(name, key, ref) =>
      Means(s, mentions, name, Declared(key)) && Means(s, mentions, name, Imported(ref))
    case TwoImports(name, first, second) =>
      first != second && Means(s, mentions, name, Imported(first)) && Means(s, mentions, name, Imported(second))
    case TwoDeclarations(name, prior, other) =>
      prior != other && Means(s, mentions, name, Declared(prior)) && Means(s, mentions, name, Declared(other))
    case ImportedAndDeclared(name, ref, key) =>
      Means(s, mentions, name, Imported(ref)) && Means(s, mentions, name, Declared(key))
  }

  ghost predicate AllJustified(s: Sources, root: Mention, mentions: set<Mention>, violations: seq<Violation>) {
    forall v | v in violations :: Justified(s, root, mentions, v)
  }

  lemma OneMoreReport(s: Sources, root: Mention, mentions: set<Mention>, violations: seq<Violation>, v: Violation)
    requires AllJustified(s, root, mentions, violations) && Justified(s, root, mentions, v)
    ensures AllJustified(s, root, mentions, violations + [v])
  {
  }

  lemma EntriesMean(s: Sources, root: Mention, mentions: set<Mention>, queue: seq<Mention>, queued: set<Mention>,
                    pastes: seq<DeclKey>, pasted: map<string, DeclKey>, refs: map<string, TypeRef>, clean: bool)
    requires queue != [] && Pasting(s, root, mentions, queue, queued, pastes, pasted, refs, clean)
    ensures queue[0] in mentions && Means(s, mentions, queue[0].name, ResolveMention(s, queue[0]))
    ensures queue[0].name in AllNames(s) + {root.name}
    ensures forall n | n in pasted :: pasted[n] in pastes && Means(s, mentions, n, Declared(pasted[n]))
    ensures forall n | n in refs :: Means(s, mentions, n, Imported(refs[n]))
  {
    assert queue[0] in queued;
  }

  /** With nothing left to paste, the paste is closed unless something was reported. */
  lemma NothingQueued(s: Sources, root: Mention, mentions: set<Mention>, queued: set<Mention>, pastes: seq<DeclKey>,
                      pasted: map<string, DeclKey>, refs: map<string, TypeRef>, clean: bool)
    requires Pasting(s, root, mentions, [], queued, pastes, pasted, refs, clean)
    ensures clean ==> IsClosedPaste(s, root, pastes, pasted, refs)
    ensures OnlyFrom(s, mentions, pasted, refs)
    ensures Unambiguous(s, root, mentions) ==> clean
  {
  }

  /** What is reported of a name that resolves like this, if anything. */
  function Conflict(root: Mention, pasted: map<string, DeclKey>, refs: map<string, TypeRef>, item: Mention,
                    to: Resolution): Option<Violation>
  {
    var name := item.name;
    match to
    case Unresolved => Some(NotDeclared(item))
    case Imported(ref) =>
      if name == root.name then Some(ConfigTypeImported(name, ref))
      else if name in pasted then Some(DeclaredAndImported(name, pasted[name], ref))
      else if name in refs && refs[name] != ref then Some(TwoImports(name, refs[name], ref))
      else None
    case Declared(key) =>
      if name in pasted && pasted[name] == key then None
      else if name in pasted then Some(TwoDeclarations(name, pasted[name], key))
      else if name in refs then Some(ImportedAndDeclared(name, refs[name], key))
      else None
  }

  lemma StartPasting(s: Sources, root: Mention, mentions: set<Mention>)
    requires IsClosure(s, root, mentions)
    ensures Pasting(s, root, mentions, [root], {root}, [], map[], map[], true)
    ensures InOrder(s, root, [], [root], [], {}, [])
    ensures AllJustified(s, root, mentions, [])
  {
  }

  lemma PastedIsCovered(s: Sources, pasted: map<string, DeclKey>, refs: map<string, TypeRef>, m: Mention)
    requires ResolveMention(s, m).Declared? && m.name in pasted
    requires pasted[m.name] == ResolveMention(s, m).key
    ensures Covered(s, pasted, refs, m)
  {
  }

  /** What is not in conflict is an import to record, a declaration met again, or a new one. */
  lemma NoConflict(root: Mention, pasted: map<string, DeclKey>, refs: map<string, TypeRef>, item: Mention, to: Resolution)
    requires Conflict(root, pasted, refs, item, to) == None
    ensures match to
            case Unresolved => false
            case Imported(ref) =>
              item.name !in pasted && item.name != root.name && (item.name in refs ==> refs[item.name] == ref)
            case Declared(key) => if item.name in pasted then pasted[item.name] == key else item.name !in refs
  {
  }

  /** A conflict is reported, and it is one. */
  lemma ReportConflict(s: Sources, root: Mention, mentions: set<Mention>, queue: seq<Mention>, queued: set<Mention>,
                       pastes: seq<DeclKey>, pasted: map<string, DeclKey>, refs: map<string, TypeRef>, clean: bool)
    requires queue != [] && Pasting(s, root, mentions, queue, queued, pastes, pasted, refs, clean)
    requires Conflict(root, pasted, refs, queue[0], ResolveMention(s, queue[0])).Some?
    ensures Pasting(s, root, mentions, queue[1..], queued, pastes, pasted, refs, false)
    ensures Justified(s, root, mentions, Conflict(root, pasted, refs, queue[0], ResolveMention(s, queue[0])).value)
    ensures ResolveMention(s, queue[0]).Declared? ==> queue[0].name in pasted.Keys + refs.Keys
  {
    hide Pasting, Means;
    EntriesMean(s, root, mentions, queue, queued, pastes, pasted, refs, clean);
    Report(s, root, mentions, queue, queued, pastes, pasted, refs, clean);
  }

  // ---------------------------------------------------------------- breadth first

  /** What the pasted declarations mention, in turn. */
  ghost function AllNeeds(s: Sources, pastes: seq<DeclKey>): seq<Mention> {
    if pastes == [] then []
    else AllNeeds(s, pastes[..|pastes| - 1]) + Needs(s, pastes[|pastes| - 1])
  }

  /**
   * `order` is the root and then the mentions of each pasted declaration in turn; the declarations are
   * pasted in the order in which `order` first mentions them, at the positions `at`.
   */
  ghost predicate BreadthFirst(s: Sources, root: Mention, pastes: seq<DeclKey>, order: seq<Mention>, at: seq<nat>) {
    order == [root] + AllNeeds(s, pastes) && PastedAt(s, pastes, order, at)
  }

  ghost predicate PastedAt(s: Sources, pastes: seq<DeclKey>, order: seq<Mention>, at: seq<nat>) {
    && |at| == |pastes|
    && (forall k | 0 <= k < |at| :: at[k] < |order| && ResolveMention(s, order[at[k]]) == Declared(pastes[k]))
    && (forall k, l | 0 <= k < l < |at| :: at[k] < at[l])
    && forall k, j | 0 <= k < |at| && 0 <= j < at[k] ::
         order[j].name != order[at[k]].name || ResolveMention(s, order[j]) != Declared(pastes[k])
  }

  /** The mentions taken off the queue so far, and where each declaration was pasted. */
  ghost predicate InOrder(s: Sources, root: Mention, taken: seq<Mention>, queue: seq<Mention>, pastes: seq<DeclKey>,
                          names: set<string>, at: seq<nat>) {
    && taken + queue == [root] + AllNeeds(s, pastes)
    && PastedAt(s, pastes, taken, at)
    && forall m | m in taken && ResolveMention(s, m).Declared? :: m.name in names
  }

  lemma AllTaken(s: Sources, root: Mention, taken: seq<Mention>, pastes: seq<DeclKey>, names: set<string>, at: seq<nat>)
    requires InOrder(s, root, taken, [], pastes, names, at)
    ensures BreadthFirst(s, root, pastes, taken, at)
  {
    assert taken + [] == taken;
  }

  /** A mention that pastes nothing is taken. */
  lemma TakeOne(s: Sources, root: Mention, taken: seq<Mention>, queue: seq<Mention>, pastes: seq<DeclKey>,
                names: set<string>, at: seq<nat>, names': set<string>)
    requires queue != [] && InOrder(s, root, taken, queue, pastes, names, at) && names <= names'
    requires ResolveMention(s, queue[0]).Declared? ==> queue[0].name in names'
    ensures InOrder(s, root, taken + [queue[0]], queue[1..], pastes, names', at)
  {
    assert taken + [queue[0]] + queue[1..] == taken + queue;
  }

  /** A mention that pastes a new declaration is taken, and what the declaration needs is queued last. */
  lemma TakeAndPaste(s: Sources, root: Mention, taken: seq<Mention>, queue: seq<Mention>, pastes: seq<DeclKey>,
                     names: set<string>, at: seq<nat>, key: DeclKey)
    requires queue != [] && InOrder(s, root, taken, queue, pastes, names, at)
    requires ResolveMention(s, queue[0]) == Declared(key) && queue[0].name !in names
    ensures InOrder(s, root, taken + [queue[0]], queue[1..] + Needs(s, key), pastes + [key], names + {queue[0].name},
                    at + [|taken|])
  {
    hide Needs;
    var taken', pastes' := taken + [queue[0]], pastes + [key];
    assert pastes'[..|pastes|] == pastes;
    assert taken' + (queue[1..] + Needs(s, key)) == (taken + queue) + Needs(s, key);
    assert forall j | 0 <= j < |taken| && ResolveMention(s, taken[j]).Declared? :: taken[j] in taken;
  }

  // ---------------------------------------------------------------- the loop

  /**
   * Paste the closure of `root`. Without violations the paste is closed and unambiguous; it never
   * strays outside any closed set of mentions; and it reports nothing when such a set is unambiguous.
   * Declarations are pasted breadth first, and whatever is reported is a conflict there is.
   */
  method PasteClosure(s: Sources, root: Mention, ghost mentions: set<Mention>)
    returns (pastes: seq<DeclKey>, pasted: map<string, DeclKey>, refs: map<string, TypeRef>, violations: seq<Violation>)
    requires IsClosure(s, root, mentions)
    ensures violations == [] ==> IsClosedPaste(s, root, pastes, pasted, refs)
    ensures OnlyFrom(s, mentions, pasted, refs)
    ensures Unambiguous(s, root, mentions) ==> violations == []
    ensures AllJustified(s, root, mentions, violations)
    ensures exists order, at :: BreadthFirst(s, root, pastes, order, at)
  {
    hide *;
    pastes, pasted, refs, violations := [], map[], map[], [];
    var queue := [root];
    ghost var queued := {root};
    ghost var taken: seq<Mention>, at: seq<nat> := [], [];
    StartPasting(s, root, mentions);
    assert pasted.Keys + refs.Keys == {};
    while queue != []
      invariant Pasting(s, root, mentions, queue, queued, pastes, pasted, refs, violations == [])
      invariant InOrder(s, root, taken, queue, pastes, pasted.Keys + refs.Keys, at)
      invariant AllJustified(s, root, mentions, violations)
      decreases (AllNames(s) + {root.name}) - pasted.Keys, |queue|
    {
      ghost var clean, names, waiting := violations == [], pasted.Keys + refs.Keys, queue;
      var item := queue[0];
      queue := queue[1..];
      var to := ResolveMention(s, item);
      var report := Conflict(root, pasted, refs, item, to);
      if report.None? {
        NoConflict(root, pasted, refs, item, to);
      }
      if report.Some? {
        ReportConflict(s, root, mentions, waiting, queued, pastes, pasted, refs, clean);
        TakeOne(s, root, taken, waiting, pastes, names, at, names);
        OneMoreReport(s, root, mentions, violations, report.value);
        violations := violations + [report.value];
      } else if to.Imported? {
        NoteImport(s, root, mentions, waiting, queued, pastes, pasted, refs, clean, to.ref);
        refs := refs[item.name := to.ref];
        TakeOne(s, root, taken, waiting, pastes, names, at, pasted.Keys + refs.Keys);
      } else if item.name in pasted {
        EntriesMean(s, root, mentions, waiting, queued, pastes, pasted, refs, clean);
        PastedIsCovered(s, pasted, refs, item);
        Skip(s, root, mentions, waiting, queued, pastes, pasted, refs, clean);
        TakeOne(s, root, taken, waiting, pastes, names, at, names);
      } else {
        PasteNew(s, root, mentions, waiting, queued, pastes, pasted, refs, clean, to.key);
        TakeAndPaste(s, root, taken, waiting, pastes, names, at, to.key);
        at := at + [|taken|];
        EntriesMean(s, root, mentions, waiting, queued, pastes, pasted, refs, clean);
        Shrinks(AllNames(s) + {root.name}, pasted, item.name, to.key);
        pasted := pasted[item.name := to.key];
        assert pasted.Keys + refs.Keys == names + {item.name};
        pastes := pastes + [to.key];
        queue := queue + Needs(s, to.key);
        queued := queued + set m | m in Needs(s, to.key);
      }
      taken := taken + [item];
    }
    NothingQueued(s, root, mentions, queued, pastes, pasted, refs, violations == []);
    AllTaken(s, root, taken, pastes, pasted.Keys + refs.Keys, at);
  }
}
