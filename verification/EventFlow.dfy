/**
 * Recovery of event names from a dispatch's argument list: backward flow through conditionals,
 * constant initialisers and the parameters of local helpers, with path-local visited sets.
 */
module EventFlow {
  import opened Results

  /** One array element: omitted or spread, a closed set of string literals, or anything wider. */
  datatype Element = Skipped | Finite(names: set<string>) | Widened

  /** An expression; `id` is its source position. */
  datatype Expr =
    | ArrayLiteral(id: nat, elements: seq<Element>)
    | Conditional(id: nat, whenTrue: Expr, whenFalse: Expr)
    | Identifier(id: nat, symbol: Option<string>)
    | Wrapped(inner: Expr)
    | OtherExpr(id: nat)

  /** A declaration of a symbol; only parameters of non-exported function declarations are followed. */
  datatype Declaration =
    | ConstVariable(initializer: Expr)
    | Parameter(owner: string, index: nat, localHelper: bool)
    | OtherDeclaration

  /** The declarations of every symbol, and the argument lists of every resolved call of a helper. */
  datatype Program = Program(declarations: map<string, seq<Declaration>>, calls: map<string, seq<seq<Expr>>>)

  /** Peel syntax-only wrappers. */
  function Unwrap(e: Expr): (r: Expr)
    ensures !r.Wrapped?
  {
    if e.Wrapped? then Unwrap(e.inner) else e
  }

  method UnwrapExpression(e: Expr) returns (current: Expr)
    ensures current == Unwrap(e)
  {
    current := e;
    while current.Wrapped?
      invariant Unwrap(current) == Unwrap(e)
      decreases current
    {
      current := current.inner;
    }
  }

  /** The first of the leading two elements with a finite value set decides. */
  function LiteralEvents(elements: seq<Element>): set<string> {
    if |elements| > 0 && elements[0].Finite? then elements[0].names
    else if |elements| > 1 && elements[1].Finite? then elements[1].names
    else {}
  }

  /** The name is in the finite value set of one of the leading two elements, and none before it has one. */
  ghost predicate Carries(elements: seq<Element>, n: string) {
    exists i :: 0 <= i < 2 && i < |elements| && elements[i].Finite? && n in elements[i].names
                && forall j | 0 <= j < i :: !elements[j].Finite?
  }

  lemma LiteralCarries(elements: seq<Element>, n: string)
    ensures n in LiteralEvents(elements) <==> Carries(elements, n)
  {
    if n in LiteralEvents(elements) {
      var i := if elements[0].Finite? then 0 else 1;
      assert n in elements[i].names;
    }
  }

  function DeclarationsOf(p: Program, symbol: Option<string>): seq<Declaration> {
    if symbol.Some? && symbol.value in p.declarations then p.declarations[symbol.value] else []
  }

  function CallSitesFor(p: Program, owner: string): seq<seq<Expr>> {
    if owner in p.calls then p.calls[owner] else []
  }

  // ---------------------------------------------------------------- the flow graph

  function ArgumentSources(calls: seq<seq<Expr>>, index: nat): set<Expr> {
    set c | c in calls && index < |c| :: Unwrap(c[index])
  }

  function DeclarationSources(p: Program, d: Declaration): set<Expr> {
    match d
    case ConstVariable(initializer) => {Unwrap(initializer)}
    case Parameter(owner, index, localHelper) => if localHelper then ArgumentSources(CallSitesFor(p, owner),
        index) else {}
    case OtherDeclaration => {}
  }

  /** The expressions a value flows from in one step, wrappers peeled. */
  function Sources(p: Program, e: Expr): set<Expr> {
    match e
    case Conditional(_, whenTrue, whenFalse) => {Unwrap(whenTrue), Unwrap(whenFalse)}
    case Identifier(_, symbol) => set d, s | d in DeclarationsOf(p, symbol) && s in DeclarationSources(p, d) :: s
    case _ => {}
  }

  /** A finite set of expressions that the flow does not leave. */
  ghost predicate IsUniverse(p: Program, all: set<Expr>) {
    forall e | e in all :: Sources(p, e) <= all
  }

  /**
   * The value of `e` can be that of `s`, wrappers peeled: a branch of a conditional, the initialiser of a
   * constant, or what a call passes at the position of a local helper's parameter.
   */
  ghost predicate FlowStep(p: Program, e: Expr, s: Expr) {
    || (e.Conditional? && (s == Unwrap(e.whenTrue) || s == Unwrap(e.whenFalse)))
    || (&& e.Identifier? && e.symbol.Some? && e.symbol.value in p.declarations
        && exists d :: d in p.declarations[e.symbol.value] && DeclaredAs(p, d, s))
  }

  ghost predicate DeclaredAs(p: Program, d: Declaration, s: Expr) {
    || (d.ConstVariable? && s == Unwrap(d.initializer))
    || (&& d.Parameter? && d.localHelper && d.owner in p.calls
        && exists c :: c in p.calls[d.owner] && d.index < |c| && s == Unwrap(c[d.index]))
  }

  lemma SourcesAreSteps(p: Program, e: Expr, s: Expr)
    ensures s in Sources(p, e) <==> FlowStep(p, e, s)
  {
    forall d ensures s in DeclarationSources(p, d) <==> DeclaredAs(p, d, s) {
      DeclaredSources(p, d, s);
    }
  }

  lemma DeclaredSources(p: Program, d: Declaration, s: Expr)
    ensures s in DeclarationSources(p, d) <==> DeclaredAs(p, d, s)
  {
    if DeclaredAs(p, d, s) && d.Parameter? {
      var c :| c in p.calls[d.owner] && d.index < |c| && s == Unwrap(c[d.index]);
      assert s in ArgumentSources(CallSitesFor(p, d.owner), d.index);
    }
  }

  // ---------------------------------------------------------------- the recovery

  lemma VisitShrinks(all: set<Expr>, seen: set<Expr>, e: Expr)
    requires e in all && e !in seen
    ensures |all - (seen + {e})| < |all - seen|
  {
    assert all - (seen + {e}) == all - seen - {e};
  }

  /** Follow one expression; every branch gets its own copy of the visited set. */
  function EventNames(p: Program, expression: Expr, seen: set<Expr>, ghost all: set<Expr>): set<string>
    requires IsUniverse(p, all) && Unwrap(expression) in all
    decreases |all - seen|, 0, 0
  {
    var current := Unwrap(expression);
    if current in seen then {}
    else
      VisitShrinks(all, seen, current);
      var seen' := seen + {current};
      match current
      case ArrayLiteral(_, elements) => LiteralEvents(elements)
      case Conditional(_, whenTrue, whenFalse) =>
        assert {Unwrap(whenTrue), Unwrap(whenFalse)} == Sources(p, current) <= all;
        EventNames(p, whenTrue, seen', all) + EventNames(p, whenFalse, seen', all)
      case Identifier(_, symbol) =>
        assert forall d, s | d in DeclarationsOf(p, symbol) && s in DeclarationSources(p, d) :: s in Sources(p, current);
        FromDeclarations(p, DeclarationsOf(p, symbol), seen', all)
      case _ => {}
  }

  /** What a declaration contributes. */
  function FromDeclaration(p: Program, d: Declaration, seen: set<Expr>, ghost all: set<Expr>): set<string>
    requires IsUniverse(p, all) && DeclarationSources(p, d) <= all
    decreases |all - seen|, 2, 0
  {
    match d
    case ConstVariable(initializer) =>
      assert Unwrap(initializer) in DeclarationSources(p, d);
      EventNames(p, initializer, seen, all)
    case Parameter(owner, index, localHelper) =>
      if localHelper then
        assert DeclarationSources(p, d) == ArgumentSources(CallSitesFor(p, owner), index);
        FromCalls(p, CallSitesFor(p, owner), index, seen, all)
      else {}
    case OtherDeclaration => {}
  }

  function FromDeclarations(p: Program, declarations: seq<Declaration>, seen: set<Expr>,
                            ghost all: set<Expr>): set<string>
    requires IsUniverse(p, all) && forall d, s | d in declarations && s in DeclarationSources(p, d) :: s in all
    decreases |all - seen|, 3, |declarations|
  {
    if declarations == [] then {}
    else FromDeclaration(p, declarations[0], seen, all) + FromDeclarations(p, declarations[1..], seen, all)
  }

  /** The argument at the parameter's position, at every call that passes one. */
  function FromCalls(p: Program, calls: seq<seq<Expr>>, index: nat, seen: set<Expr>, ghost all: set<Expr>): set<string>
    requires IsUniverse(p, all) && ArgumentSources(calls, index) <= all
    decreases |all - seen|, 1, |calls|
  {
    if calls == [] then {}
    else
      assert ArgumentSources(calls[1..], index) <= ArgumentSources(calls, index);
      assert calls[0] in calls;
      (if index < |calls[0]| then
         assert Unwrap(calls[0][index]) in ArgumentSources(calls, index);
         EventNames(p, calls[0][index], seen, all)
       else {})
      + FromCalls(p, calls[1..], index, seen, all)
  }

  // ---------------------------------------------------------------- the recovery as the walk it is

  /** The first finite value set among the leading two elements. */
  method FiniteEvents(elements: seq<Element>) returns (events: set<string>)
    ensures events == LiteralEvents(elements) && forall n :: n in events <==> Carries(elements, n)
  {
    forall n ensures n in LiteralEvents(elements) <==> Carries(elements, n) {
      LiteralCarries(elements, n);
    }
    for i := 0 to if |elements| < 2 then |elements| else 2
      invariant forall j | 0 <= j < i :: !elements[j].Finite?
    {
      if elements[i].Finite? {
        return elements[i].names;
      }
    }
    events := {};
  }

  lemma NextDeclaration(p: Program, declarations: seq<Declaration>, i: nat, seen: set<Expr>, all: set<Expr>)
    requires IsUniverse(p, all) && forall d, s | d in declarations && s in DeclarationSources(p, d) :: s in all
    requires i < |declarations|
    ensures DeclarationSources(p, declarations[i]) <= all
    ensures FromDeclarations(p, declarations[i..], seen, all) ==
            FromDeclaration(p, declarations[i], seen, all) + FromDeclarations(p, declarations[i + 1..], seen, all)
  {
    hide EventNames, FromCalls, DeclarationSources;
    assert declarations[i] in declarations;
    assert declarations[i..][0] == declarations[i] && declarations[i..][1..] == declarations[i + 1..];
  }

  lemma NextCall(p: Program, calls: seq<seq<Expr>>, i: nat, index: nat, seen: set<Expr>, all: set<Expr>)
    requires IsUniverse(p, all) && ArgumentSources(calls, index) <= all && i < |calls|
    ensures ArgumentSources(calls[i..], index) <= all && ArgumentSources(calls[i + 1..], index) <= all
    ensures index < |calls[i]| ==> Unwrap(calls[i][index]) in all
    ensures FromCalls(p, calls[i..], index, seen, all) ==
            (if index < |calls[i]| then EventNames(p, calls[i][index], seen, all) else {})
            + FromCalls(p, calls[i + 1..], index, seen, all)
  {
    hide EventNames;
    assert calls[i] in calls;
    assert index < |calls[i]| ==> Unwrap(calls[i][index]) in ArgumentSources(calls, index);
    assert calls[i..][0] == calls[i] && calls[i..][1..] == calls[i + 1..];
  }

  /** Follow an argument list back; each source is followed with the visited nodes so far. */
  method EventNamesFromArgumentList(p: Program, expression: Expr, seen: set<Expr>,
                                    ghost all: set<Expr>) returns (events: set<string>)
    requires IsUniverse(p, all) && Unwrap(expression) in all
    ensures events == EventNames(p, expression, seen, all)
    decreases |all - seen|, 0
  {
    var current := UnwrapExpression(expression);
    if current in seen {
      return {};
    }
    VisitShrinks(all, seen, current);
    var seen' := seen + {current};
    match current
    case ArrayLiteral(_, elements) => events := FiniteEvents(elements);
    case Conditional(_, whenTrue, whenFalse) =>
      assert {Unwrap(whenTrue), Unwrap(whenFalse)} == Sources(p, current) <= all;
      var left := EventNamesFromArgumentList(p, whenTrue, seen', all);
      var right := EventNamesFromArgumentList(p, whenFalse, seen', all);
      events := left + right;
    case Identifier(_, symbol) =>
      assert forall d, s | d in DeclarationsOf(p, symbol) && s in DeclarationSources(p, d) :: s in Sources(p, current);
      events := EventNamesFromDeclarations(p, DeclarationsOf(p, symbol), seen', all);
    case _ => events := {};
  }

  /** Every constant initialiser and every parameter among a symbol's declarations. */
  method EventNamesFromDeclarations(p: Program, declarations: seq<Declaration>, seen: set<Expr>, ghost all: set<Expr>)
    returns (events: set<string>)
    requires IsUniverse(p, all) && forall d, s | d in declarations && s in DeclarationSources(p, d) :: s in all
    ensures events == FromDeclarations(p, declarations, seen, all)
    decreases |all - seen|, 2
  {
    hide EventNames, FromCalls, FromDeclarations, IsUniverse, Sources;
    events := {};
    for i := 0 to |declarations|
      invariant forall d, s | d in declarations[i..] && s in DeclarationSources(p, d) :: s in all
      invariant events + FromDeclarations(p, declarations[i..], seen, all) == FromDeclarations(p, declarations, seen, all)
    {
      NextDeclaration(p, declarations, i, seen, all);
      match declarations[i]
      case ConstVariable(initializer) =>
        assert Unwrap(initializer) in DeclarationSources(p, declarations[i]);
        var found := EventNamesFromArgumentList(p, initializer, seen, all);
        events := events + found;
      case Parameter(owner, index, localHelper) =>
        if localHelper {
          assert DeclarationSources(p, declarations[i]) == ArgumentSources(CallSitesFor(p, owner), index);
          var found := EventNamesFromParameter(p, owner, index, seen, all);
          events := events + found;
        }
      case OtherDeclaration =>
    }
    NoDeclarations(p, seen, all);
    assert declarations[|declarations|..] == [];
  }

  lemma NoDeclarations(p: Program, seen: set<Expr>, all: set<Expr>)
    requires IsUniverse(p, all)
    ensures FromDeclarations(p, [], seen, all) == {} && forall index: nat :: FromCalls(p, [], index, seen, all) == {}
  {
  }

  /** Follow a local helper's parameter back to every call that passes it. */
  method EventNamesFromParameter(p: Program, owner: string, index: nat, seen: set<Expr>, ghost all: set<Expr>)
    returns (events: set<string>)
    requires IsUniverse(p, all) && ArgumentSources(CallSitesFor(p, owner), index) <= all
    ensures events == FromCalls(p, CallSitesFor(p, owner), index, seen, all)
    decreases |all - seen|, 1
  {
    hide EventNames, FromCalls, IsUniverse, Sources;
    var calls := CallSitesFor(p, owner);
    events := {};
    for i := 0 to |calls|
      invariant ArgumentSources(calls[i..], index) <= all
      invariant events + FromCalls(p, calls[i..], index, seen, all) == FromCalls(p, calls, index, seen, all)
    {
      NextCall(p, calls, i, index, seen, all);
      if index < |calls[i]| {
        var found := EventNamesFromArgumentList(p, calls[i][index], seen, all);
        events := events + found;
      }
    }
    NoDeclarations(p, seen, all);
    assert calls[|calls|..] == [];
  }

  // ---------------------------------------------------------------- one step of the recovery

  lemma {:induction false} InCalls(p: Program, calls: seq<seq<Expr>>, index: nat, seen: set<Expr>, all: set<Expr>,
                                   n: string)
    requires IsUniverse(p, all) && ArgumentSources(calls, index) <= all
    ensures n in FromCalls(p, calls, index, seen, all) <==>
            exists s :: s in ArgumentSources(calls, index) && n in EventNames(p, s, seen, all)
    decreases |calls|
  {
    if calls != [] {
      var rest := ArgumentSources(calls[1..], index);
      assert rest <= ArgumentSources(calls, index);
      InCalls(p, calls[1..], index, seen, all, n);
      assert calls[0] in calls && forall c | c in calls :: c == calls[0] || c in calls[1..];
      if index < |calls[0]| {
        var s := Unwrap(calls[0][index]);
        assert ArgumentSources(calls, index) == rest + {s};
        SameUnwrapped(p, calls[0][index], seen, all);
      } else {
        assert ArgumentSources(calls, index) == rest;
      }
    }
  }

  lemma SameUnwrapped(p: Program, e: Expr, seen: set<Expr>, all: set<Expr>)
    requires IsUniverse(p, all) && Unwrap(e) in all
    ensures Unwrap(Unwrap(e)) == Unwrap(e)
    ensures EventNames(p, e, seen, all) == EventNames(p, Unwrap(e), seen, all)
  {
  }

  lemma {:induction false} InDeclarations(p: Program, declarations: seq<Declaration>, seen: set<Expr>,
                                          all: set<Expr>, n: string)
    requires IsUniverse(p, all) && forall d, s | d in declarations && s in DeclarationSources(p, d) :: s in all
    ensures n in FromDeclarations(p, declarations, seen, all) <==>
            exists d, s :: d in declarations && s in DeclarationSources(p, d) && n in EventNames(p, s, seen, all)
    decreases |declarations|
  {
    if declarations != [] {
      InDeclarations(p, declarations[1..], seen, all, n);
      var d := declarations[0];
      assert d in declarations && forall x | x in declarations :: x == d || x in declarations[1..];
      match d
      case ConstVariable(initializer) =>
        assert DeclarationSources(p, d) == {Unwrap(initializer)};
        SameUnwrapped(p, initializer, seen, all);
      case Parameter(owner, index, localHelper) =>
        if localHelper {
          assert DeclarationSources(p, d) == ArgumentSources(CallSitesFor(p, owner), index);
          InCalls(p, CallSitesFor(p, owner), index, seen, all, n);
        }
      case OtherDeclaration =>
    }
  }

  /** What the recovery returns at an unvisited expression: its literal's events, or those of its sources. */
  lemma EventStep(p: Program, e: Expr, seen: set<Expr>, all: set<Expr>, n: string)
    requires IsUniverse(p, all) && e in all && Unwrap(e) == e && e !in seen
    ensures Sources(p, e) <= all && forall s | s in Sources(p, e) :: Unwrap(s) == s
    ensures n in EventNames(p, e, seen, all) <==>
            || (e.ArrayLiteral? && n in LiteralEvents(e.elements))
            || exists s :: s in Sources(p, e) && n in EventNames(p, s, seen + {e}, all)
  {
    match e
    case Conditional(_, whenTrue, whenFalse) =>
      assert Sources(p, e) == {Unwrap(whenTrue), Unwrap(whenFalse)};
      SameUnwrapped(p, whenTrue, seen + {e}, all);
      SameUnwrapped(p, whenFalse, seen + {e}, all);
    case Identifier(_, symbol) =>
      assert forall d, s | d in DeclarationsOf(p, symbol) && s in DeclarationSources(p, d) :: s in Sources(p, e);
      InDeclarations(p, DeclarationsOf(p, symbol), seen + {e}, all, n);
    case _ =>
  }

  lemma NothingSeen(p: Program, e: Expr, seen: set<Expr>, all: set<Expr>)
    requires IsUniverse(p, all) && e in all && Unwrap(e) == e
    ensures e in seen ==> EventNames(p, e, seen, all) == {}
  {
  }

  // ---------------------------------------------------------------- recovery equals reachability

  ghost predicate FlowPath(p: Program, path: seq<Expr>) {
    path != [] && forall i | 0 <= i < |path| - 1 :: FlowStep(p, path[i], path[i + 1])
  }

  /** The event name stands in an array literal the expression's value can come from. */
  ghost predicate FlowsFrom(p: Program, e: Expr, n: string) {
    exists path :: FlowPath(p, path) && path[0] == e && EndsInLiteral(path, n)
  }

  ghost predicate EndsInLiteral(path: seq<Expr>, n: string) {
    path != [] && path[|path| - 1].ArrayLiteral? && Carries(path[|path| - 1].elements, n)
  }

  lemma FlowsAtOnce(p: Program, e: Expr, n: string)
    requires e.ArrayLiteral? && Carries(e.elements, n)
    ensures FlowsFrom(p, e, n)
  {
    hide FlowStep, Carries;
    assert FlowPath(p, [e]) && EndsInLiteral([e], n);
  }

  lemma FlowsOn(p: Program, e: Expr, path: seq<Expr>, n: string)
    requires FlowPath(p, path) && EndsInLiteral(path, n) && FlowStep(p, e, path[0])
    ensures FlowsFrom(p, e, n)
  {
    hide FlowStep, Carries;
    var longer := [e] + path;
    assert longer[|longer| - 1] == path[|path| - 1];
    forall i | 0 <= i < |longer| - 1 ensures FlowStep(p, longer[i], longer[i + 1]) {
      assert longer[i + 1] == path[i] && (i > 0 ==> longer[i] == path[i - 1]);
    }
    assert FlowPath(p, longer) && EndsInLiteral(longer, n);
  }

  /** Only names of reachable literals are returned. */
  lemma {:induction false} RecoverySound(p: Program, e: Expr, seen: set<Expr>, all: set<Expr>, n: string)
    requires IsUniverse(p, all) && e in all && Unwrap(e) == e && n in EventNames(p, e, seen, all)
    ensures FlowsFrom(p, e, n)
    decreases |all - seen|
  {
    hide FlowStep, Carries, EventNames, LiteralEvents, Sources, EndsInLiteral;
    NothingSeen(p, e, seen, all);
    if e !in seen {
      EventStep(p, e, seen, all, n);
      if e.ArrayLiteral? && n in LiteralEvents(e.elements) {
        LiteralCarries(e.elements, n);
        FlowsAtOnce(p, e, n);
      } else {
        var s :| s in Sources(p, e) && n in EventNames(p, s, seen + {e}, all);
        VisitShrinks(all, seen, e);
        RecoverySound(p, s, seen + {e}, all, n);
        var path :| FlowPath(p, path) && path[0] == s && EndsInLiteral(path, n);
        SourcesAreSteps(p, e, s);
        FlowsOn(p, e, path, n);
      }
    }
  }

  lemma PathSuffix(p: Program, path: seq<Expr>, k: nat)
    requires FlowPath(p, path) && k < |path|
    ensures FlowPath(p, path[k..])
  {
    hide FlowStep;
  }

  /** A path that avoids the visited set carries its literal's names back; a path that returns to its start is cut short. */
  lemma {:induction false} RecoveryComplete(p: Program, path: seq<Expr>, seen: set<Expr>, all: set<Expr>, n: string)
    requires IsUniverse(p, all) && FlowPath(p, path) && EndsInLiteral(path, n)
    requires forall x | x in path :: x in all && x !in seen
    requires Unwrap(path[0]) == path[0]
    ensures n in EventNames(p, path[0], seen, all)
    decreases |path|
  {
    hide FlowStep, Carries;
    var e := path[0];
    if k :| 0 < k < |path| && path[k] == e {
      PathSuffix(p, path, k);
      assert forall x | x in path[k..] :: x in path;
      RecoveryComplete(p, path[k..], seen, all, n);
    } else {
      EventStep(p, e, seen, all, n);
      if |path| > 1 {
        SourcesAreSteps(p, path[0], path[1]);
        PathSuffix(p, path, 1);
        forall x | x in path[1..] ensures x in all && x !in seen + {e} {
          var i :| 0 <= i < |path[1..]| && path[1..][i] == x;
          assert path[i + 1] == x;
        }
        RecoveryComplete(p, path[1..], seen + {e}, all, n);
      } else {
        LiteralCarries(e.elements, n);
      }
    }
  }

  lemma {:induction false} FlowStaysIn(p: Program, path: seq<Expr>, all: set<Expr>, k: nat)
    requires IsUniverse(p, all) && FlowPath(p, path) && path[0] in all && k < |path|
    ensures path[k] in all
  {
    hide FlowStep;
    if k > 0 {
      FlowStaysIn(p, path, all, k - 1);
      SourcesAreSteps(p, path[k - 1], path[k]);
    }
  }

  // ---------------------------------------------------------------- a universe always exists

  ghost function Inside(e: Expr): set<Expr> {
    {e} + match e
          case Conditional(_, whenTrue, whenFalse) => Inside(whenTrue) + Inside(whenFalse)
          case Wrapped(inner) => Inside(inner)
          case _ => {}
  }

  /** The expression, every initialiser and every argument. */
  ghost function Roots(p: Program, e: Expr): set<Expr> {
    {e}
    + (set symbol, d | symbol in p.declarations && d in p.declarations[symbol] && d.ConstVariable? :: d.initializer)
    + (set owner, c, a | owner in p.calls && c in p.calls[owner] && a in c :: a)
  }

  /** All expressions of the program together with `e`. */
  ghost function Universe(p: Program, e: Expr): set<Expr> {
    set r, x | r in Roots(p, e) && x in Inside(r) :: x
  }

  lemma {:induction false} InsideIsClosed(x: Expr, e: Expr)
    requires x in Inside(e)
    ensures Inside(x) <= Inside(e)
    decreases e
  {
    if x != e {
      match e
      case Conditional(_, whenTrue, whenFalse) =>
        if x in Inside(whenTrue) {
          InsideIsClosed(x, whenTrue);
        } else {
          InsideIsClosed(x, whenFalse);
        }
      case Wrapped(inner) => InsideIsClosed(x, inner);
    }
  }

  lemma {:induction false} UnwrapInside(e: Expr)
    ensures Unwrap(e) in Inside(e)
    decreases e
  {
    if e.Wrapped? {
      UnwrapInside(e.inner);
    }
  }

  lemma InUniverse(p: Program, e: Expr, r: Expr, x: Expr)
    requires r in Roots(p, e) && x in Inside(r)
    ensures Unwrap(x) in Universe(p, e)
  {
    UnwrapInside(x);
    InsideIsClosed(x, r);
  }

  lemma DeclarationsInUniverse(p: Program, e: Expr, symbol: Option<string>, d: Declaration, s: Expr)
    requires d in DeclarationsOf(p, symbol) && s in DeclarationSources(p, d)
    ensures s in Universe(p, e)
  {
    match d
    case ConstVariable(initializer) =>
      assert initializer in Roots(p, e);
      InUniverse(p, e, initializer, initializer);
    case Parameter(owner, index, localHelper) =>
      var c :| c in CallSitesFor(p, owner) && index < |c| && s == Unwrap(c[index]);
      assert c[index] in c;
      assert c[index] in Roots(p, e);
      InUniverse(p, e, c[index], c[index]);
  }

  lemma UniverseIsClosed(p: Program, e: Expr)
    ensures IsUniverse(p, Universe(p, e)) && Unwrap(e) in Universe(p, e)
  {
    InUniverse(p, e, e, e);
    forall x, s | x in Universe(p, e) && s in Sources(p, x) ensures s in Universe(p, e) {
      var r :| r in Roots(p, e) && x in Inside(r);
      match x
      case Conditional(_, whenTrue, whenFalse) =>
        InsideIsClosed(x, r);
        InUniverse(p, e, r, whenTrue);
        InUniverse(p, e, r, whenFalse);
      case Identifier(_, symbol) =>
        var d :| d in DeclarationsOf(p, symbol) && s in DeclarationSources(p, d);
        DeclarationsInUniverse(p, e, symbol, d, s);
    }
  }

  /** On every program, however cyclic, the walk returns exactly the names standing in reachable array literals. */
  lemma RecoveryIsReachability(p: Program, e: Expr, n: string)
    ensures IsUniverse(p, Universe(p, e)) && Unwrap(e) in Universe(p, e)
    ensures n in EventNames(p, e, {}, Universe(p, e)) <==> FlowsFrom(p, Unwrap(e), n)
  {
    var all := Universe(p, e);
    UniverseIsClosed(p, e);
    SameUnwrapped(p, e, {}, all);
    if n in EventNames(p, e, {}, all) {
      RecoverySound(p, Unwrap(e), {}, all, n);
    }
    if path :| FlowPath(p, path) && path[0] == Unwrap(e) && EndsInLiteral(path, n) {
      forall x | x in path ensures x in all {
        var k :| 0 <= k < |path| && path[k] == x;
        FlowStaysIn(p, path, all, k);
      }
      RecoveryComplete(p, path, {}, all, n);
    }
  }

  /** The walk from a dispatch call, nothing visited yet: exactly the names that reach it. */
  method DispatchedEvents(p: Program, expression: Expr) returns (events: set<string>)
    ensures forall n :: n in events <==> FlowsFrom(p, Unwrap(expression), n)
  {
    UniverseIsClosed(p, expression);
    events := EventNamesFromArgumentList(p, expression, {}, Universe(p, expression));
    forall n ensures n in events <==> FlowsFrom(p, Unwrap(expression), n) {
      RecoveryIsReachability(p, expression, n);
    }
  }
}
