/**
 * The incremental scope analysis: a chain of function, with and catch environments that
 * collects references while the parser walks the source, and resolves a function's references
 * when its body ends. It is proved to compute exactly what ScopeTree states about the tree.
 */
module Environments {
  import opened Basics
  import opened ScopeTree

  datatype Kind = WithBlock | CatchBlock(target: Sym) | FunctionBody

  // ----- the chain as a value -----

  datatype EnvState = EnvState(kind: Kind, unresolved: SymbolMap, directEval: bool, upperOfEval: bool)

  function Opened(kind: Kind): EnvState
  {
    EnvState(kind, map[], false, false)
  }

  /** References m, made inside the innermost environment of cs, reach the nearest function. */
  ghost function Pushed(cs: seq<EnvState>, m: SymbolMap): (r: seq<EnvState>)
    ensures |r| == |cs|
  {
    if cs == [] then []
    else
      match cs[0].kind
      case WithBlock => [cs[0]] + Pushed(cs[1..], AllTrue(m))
      case CatchBlock(x) => [cs[0]] + Pushed(cs[1..], m - {x})
      case FunctionBody => [cs[0].(unresolved := Merge(cs[0].unresolved, m))] + cs[1..]
  }

  /** Eval was called directly in the innermost environment, or somewhere inside it. */
  ghost function Flagged(cs: seq<EnvState>, direct: bool, inside: bool): (r: seq<EnvState>)
    ensures |r| == |cs|
  {
    if cs == [] then []
    else
      [cs[0].(directEval := cs[0].directEval || direct, upperOfEval := cs[0].upperOfEval || inside)]
      + Flagged(cs[1..], false, inside)
  }

  /** The chain after the parser has gone over the nodes. */
  ghost function After(cs: seq<EnvState>, nodes: seq<Node>): seq<EnvState>
  {
    Flagged(Pushed(cs, Free(nodes)), CallsEvalPlainly(nodes), ContainsEval(nodes))
  }

  // ----- laws of pushing and flagging -----

  lemma MergeAssociates(a: SymbolMap, b: SymbolMap, c: SymbolMap)
    ensures Merge(Merge(a, b), c) == Merge(a, Merge(b, c))
  {
    var l, r := Merge(Merge(a, b), c), Merge(a, Merge(b, c));
    assert l.Keys == r.Keys;
    assert forall x <- l :: l[x] == r[x];
  }

  lemma MergeMarked(a: SymbolMap, b: SymbolMap)
    ensures AllTrue(Merge(a, b)) == Merge(AllTrue(a), AllTrue(b))
  {
    var l, r := AllTrue(Merge(a, b)), Merge(AllTrue(a), AllTrue(b));
    assert l.Keys == r.Keys;
    assert forall x <- l :: l[x] == r[x];
  }

  lemma MergeWithout(a: SymbolMap, b: SymbolMap, x: Sym)
    ensures Merge(a, b) - {x} == Merge(a - {x}, b - {x})
  {
    var l, r := Merge(a, b) - {x}, Merge(a - {x}, b - {x});
    assert l.Keys == r.Keys;
    assert forall y <- l :: l[y] == r[y];
  }

  lemma MergeNothing(a: SymbolMap)
    ensures Merge(a, map[]) == a && Merge(map[], a) == a
  {
    assert Merge(a, map[]).Keys == a.Keys == Merge(map[], a).Keys;
  }

  /** Two pushes are one push of the union, so the order of references does not matter. */
  lemma {:induction false} PushTwice(cs: seq<EnvState>, a: SymbolMap, b: SymbolMap)
    ensures Pushed(Pushed(cs, a), b) == Pushed(cs, Merge(a, b))
    decreases |cs|
  {
    if cs != [] {
      match cs[0].kind {
        case WithBlock =>
          MergeMarked(a, b);
          PushTwice(cs[1..], AllTrue(a), AllTrue(b));
        case CatchBlock(x) =>
          MergeWithout(a, b, x);
          PushTwice(cs[1..], a - {x}, b - {x});
        case FunctionBody =>
          MergeAssociates(cs[0].unresolved, a, b);
      }
    }
  }

  lemma {:induction false} PushNothing(cs: seq<EnvState>)
    ensures Pushed(cs, map[]) == cs
    decreases |cs|
  {
    if cs != [] {
      match cs[0].kind {
        case WithBlock =>
          assert AllTrue(map[]) == map[];
          PushNothing(cs[1..]);
        case CatchBlock(x) =>
          var nothing: SymbolMap := map[];
          assert nothing - {x} == nothing;
          PushNothing(cs[1..]);
        case FunctionBody =>
          MergeNothing(cs[0].unresolved);
      }
      assert cs == [cs[0]] + cs[1..];
    }
  }

  lemma {:induction false} PushCommutesWithFlag(cs: seq<EnvState>, m: SymbolMap, direct: bool, inside: bool)
    ensures Pushed(Flagged(cs, direct, inside), m) == Flagged(Pushed(cs, m), direct, inside)
    decreases |cs|
  {
    if cs != [] {
      match cs[0].kind {
        case WithBlock => PushCommutesWithFlag(cs[1..], AllTrue(m), false, inside);
        case CatchBlock(x) => PushCommutesWithFlag(cs[1..], m - {x}, false, inside);
        case FunctionBody =>
      }
    }
  }

  lemma {:induction false} FlagTwice(cs: seq<EnvState>, d1: bool, i1: bool, d2: bool, i2: bool)
    ensures Flagged(Flagged(cs, d1, i1), d2, i2) == Flagged(cs, d1 || d2, i1 || i2)
    decreases |cs|
  {
    if cs != [] {
      FlagTwice(cs[1..], false, i1, false, i2);
    }
  }

  lemma {:induction false} FlagNothing(cs: seq<EnvState>)
    ensures Flagged(cs, false, false) == cs
    decreases |cs|
  {
    if cs != [] {
      FlagNothing(cs[1..]);
      assert cs[0].(directEval := cs[0].directEval || false, upperOfEval := cs[0].upperOfEval || false) == cs[0];
      assert cs == [cs[0]] + cs[1..];
    }
  }

  ghost function AfterOf(cs: seq<EnvState>, node: Node): seq<EnvState>
  {
    Flagged(Pushed(cs, FreeOf(node)), node == EvalCall, EvalIn(node))
  }

  /** Going over the nodes one by one. */
  lemma AfterCons(cs: seq<EnvState>, nodes: seq<Node>)
    ensures nodes == [] ==> After(cs, nodes) == cs
    ensures nodes != [] ==> After(AfterOf(cs, nodes[0]), nodes[1..]) == After(cs, nodes)
  {
    if nodes == [] {
      PushNothing(cs);
      FlagNothing(cs);
    } else {
      var node, rest := nodes[0], nodes[1..];
      EvalCons(nodes);
      assert Free(nodes) == Merge(FreeOf(node), Free(rest));
      assert ContainsEval(nodes) == (EvalIn(node) || ContainsEval(rest));
      hide Flagged, Pushed, Free, FreeOf, CallsEvalPlainly, ContainsEval, EvalIn, Merge;
      PushCommutesWithFlag(Pushed(cs, FreeOf(node)), Free(rest), node == EvalCall, EvalIn(node));
      PushTwice(cs, FreeOf(node), Free(rest));
      FlagTwice(Pushed(cs, Free(nodes)), node == EvalCall, EvalIn(node), CallsEvalPlainly(rest), ContainsEval(rest));
    }
  }

  lemma EvalCons(nodes: seq<Node>)
    requires nodes != []
    ensures CallsEvalPlainly(nodes) <==> nodes[0] == EvalCall || CallsEvalPlainly(nodes[1..])
  {
    if CallsEvalPlainly(nodes[1..]) {
      var i :| 0 <= i < |nodes[1..]| && nodes[1..][i] == EvalCall;
      assert nodes[i + 1] == EvalCall;
    }
    if CallsEvalPlainly(nodes) {
      var i :| 0 <= i < |nodes| && nodes[i] == EvalCall;
      assert i > 0 ==> nodes[1..][i - 1] == EvalCall;
    }
  }

  lemma OneReference(symbol: Sym, crossed: bool, target: Sym)
    ensures AllTrue(map[symbol := crossed]) == map[symbol := true]
    ensures map[symbol := crossed] - {target} == if symbol == target then map[] else map[symbol := crossed]
  {
  }

  // ----- the environments -----

  class Environment {
    const kind: Kind
    const upper: Environment?
    ghost const outer: seq<Environment>  // the enclosing environments, innermost first
    ghost const enclosing: set<Environment>
    var unresolved: SymbolMap
    var directCallToEval: bool
    var upperOfEval: bool

    constructor (kind: Kind, upper: Environment?)
      requires upper != null ==> upper.Linked()
      requires kind != FunctionBody ==> upper != null
      ensures Linked() && this.kind == kind && this.upper == upper
      ensures State() == Opened(kind)
      ensures fresh(this)
    {
      this.kind := kind;
      this.upper := upper;
      outer := if upper == null then [] else [upper] + upper.outer;
      enclosing := if upper == null then {} else {upper} + upper.enclosing;
      unresolved := map[];
      directCallToEval := false;
      upperOfEval := false;
    }

    /** With and catch environments always lie inside a function environment. */
    ghost predicate Linked()
      decreases |outer|
    {
      && (kind != FunctionBody ==> upper != null)
      && (if upper == null then outer == [] && enclosing == {}
          else outer == [upper] + upper.outer && enclosing == {upper} + upper.enclosing && upper.Linked())
    }

    ghost function State(): EnvState
      reads this
    {
      EnvState(kind, unresolved, directCallToEval, upperOfEval)
    }

    /** The states of this environment and the enclosing ones, innermost first. */
    ghost function States(): (r: seq<EnvState>)
      requires Linked()
      reads this, enclosing
      ensures |r| == 1 + |outer|
      decreases |outer|
    {
      if upper == null then [State()] else [State()] + upper.States()
    }

    lemma {:induction false} NotEnclosed()
      requires Linked()
      ensures this !in enclosing
      ensures forall e <- enclosing :: |e.outer| < |outer|
      decreases |outer|
    {
      if upper != null {
        upper.NotEnclosed();
      }
    }

    lemma {:induction false} StatesAre()
      requires Linked()
      ensures forall i :: 0 <= i < |outer| ==> outer[i] in enclosing && outer[i].Linked() && outer[i].outer == outer[i + 1..]
      ensures States()[0] == State() && forall i :: 0 <= i < |outer| ==> States()[i + 1] == outer[i].State()
      decreases |outer|
    {
      if upper != null {
        upper.StatesAre();
      }
    }

    /** A reference made in, or passed up to, this environment. */
    method Referencing(symbol: Sym, crossed: bool)
      requires Linked()
      modifies this, enclosing
      ensures States() == Pushed(old(States()), map[symbol := crossed])
      decreases |outer|
    {
      NotEnclosed();
      match kind {
        case WithBlock =>
          upper.Referencing(symbol, true);
          OneReference(symbol, crossed, symbol);
        case CatchBlock(target) =>
          OneReference(symbol, crossed, target);
          if symbol != target {
            upper.Referencing(symbol, crossed);
          } else {
            PushNothing(upper.States());
          }
        case FunctionBody =>
          Note(symbol, crossed);
      }
    }

    method Note(symbol: Sym, crossed: bool)
      modifies this`unresolved
      ensures unresolved == Merge(old(unresolved), map[symbol := crossed])
    {
      if symbol in unresolved {
        unresolved := unresolved[symbol := unresolved[symbol] || crossed];
      } else {
        unresolved := unresolved[symbol := crossed];
      }
    }

    /** An identifier met by the parser while this is the innermost environment. */
    method Mention(symbol: Sym)
      requires Linked()
      modifies this, enclosing
      ensures States() == Pushed(old(States()), map[symbol := false])
    {
      Referencing(symbol, kind == WithBlock);
      if kind == WithBlock {
        assert AllTrue(map[symbol := false]) == AllTrue(map[symbol := true]);
      }
    }

    /** What a function inside could not resolve; every reference has crossed its boundary. */
    method Propagate(m: SymbolMap)
      requires Linked()
      modifies this, enclosing
      ensures States() == Pushed(old(States()), AllTrue(m))
      decreases |outer|
    {
      NotEnclosed();
      match kind {
        case WithBlock =>
          upper.Propagate(m);
          assert AllTrue(AllTrue(m)) == AllTrue(m);
        case CatchBlock(target) =>
          upper.Propagate(m - {target});
          assert AllTrue(m - {target}) == AllTrue(m) - {target};
        case FunctionBody =>
          MarkAll(m);
      }
    }

    method MarkAll(m: SymbolMap)
      modifies this`unresolved
      ensures unresolved == Merge(old(unresolved), AllTrue(m))
    {
      var todo := m.Keys;
      while todo != {}
        invariant todo <= m.Keys
        invariant unresolved == Merge(old(unresolved), map x | x in m && x !in todo :: true)
      {
        var x :| x in todo;
        unresolved := unresolved[x := true];
        todo := todo - {x};
      }
      assert (map x | x in m && x !in todo :: true) == AllTrue(m);
    }

    lemma OuterDiffer(i: nat)
      requires Linked() && i < |outer|
      ensures outer[i] != this && forall j :: 0 <= j < |outer| && j != i ==> outer[j] != outer[i]
    {
      NotEnclosed();
      StatesAre();
      forall j | 0 <= j < |outer| && j != i
        ensures outer[j] != outer[i]
      {
        assert |outer[j].outer| != |outer[i].outer|;
      }
    }

    method RecordDirectCallToEval()
      requires Linked()
      modifies this, enclosing
      ensures States() == Flagged(old(States()), true, true)
    {
      NotEnclosed();
      StatesAre();
      ghost var was := States();
      directCallToEval := true;
      upperOfEval := true;
      var env := upper;
      ghost var i := 0;
      while env != null
        invariant 0 <= i <= |outer| && (if i < |outer| then env == outer[i] else env == null)
        invariant State() == was[0].(directEval := true, upperOfEval := true)
        invariant forall j :: 0 <= j < i ==> outer[j].State() == was[j + 1].(upperOfEval := true)
        invariant forall j :: i <= j < |outer| ==> outer[j].State() == was[j + 1]
        decreases |outer| - i
      {
        OuterDiffer(i);
        env.upperOfEval := true;
        env := env.upper;
        i := i + 1;
      }
      StatesAre();
      ghost var now := States();
      forall j | 0 <= j < |now|
        ensures now[j] == was[j].(directEval := was[j].directEval || j == 0, upperOfEval := true)
      {
        assert j > 0 ==> now[j] == outer[j - 1].State();
      }
      FlaggedIs(was, now, true, true);
    }
  }

  lemma {:induction false} FlaggedIs(cs: seq<EnvState>, r: seq<EnvState>, direct: bool, inside: bool)
    requires |r| == |cs|
    requires forall j :: 0 <= j < |cs| ==>
      r[j] == cs[j].(directEval := cs[j].directEval || (j == 0 && direct), upperOfEval := cs[j].upperOfEval || inside)
    ensures r == Flagged(cs, direct, inside)
    decreases |cs|
  {
    if cs != [] {
      FlaggedIs(cs[1..], r[1..], false, inside);
      assert r == [r[0]] + r[1..];
    }
  }

  // ----- the scope of a function -----

  /** What a scope collects while the parser goes over the function's body. */
  datatype Notes = Notes(vars: seq<Sym>, funcs: seq<Sym>, directEval: bool, hasArguments: bool, hidingArguments: bool)

  ghost function Collect(n: Notes, nodes: seq<Node>): Notes
  {
    Notes(n.vars + Vars(nodes), n.funcs + Funcs(nodes), n.directEval || CallsEval(nodes),
          n.hasArguments || MentionsArguments(nodes), n.hidingArguments || ARGUMENTS in Funcs(nodes))
  }

  ghost function CollectOf(n: Notes, node: Node): Notes
  {
    Notes(n.vars + VarsOf(node), n.funcs + FuncsOf(node), n.directEval || CallsEvalIn(node),
          n.hasArguments || ArgumentsIn(node), n.hidingArguments || ARGUMENTS in FuncsOf(node))
  }

  lemma CollectCons(n: Notes, nodes: seq<Node>)
    ensures nodes == [] ==> Collect(n, nodes) == n
    ensures nodes != [] ==> Collect(CollectOf(n, nodes[0]), nodes[1..]) == Collect(n, nodes)
  {
    if nodes == [] {
      assert n.vars + [] == n.vars && n.funcs + [] == n.funcs;
    } else {
      var node, rest := nodes[0], nodes[1..];
      assert Vars(nodes) == VarsOf(node) + Vars(rest) && Funcs(nodes) == FuncsOf(node) + Funcs(rest);
      hide Vars, VarsOf, Funcs, FuncsOf;
      assert (n.vars + VarsOf(node)) + Vars(rest) == n.vars + (VarsOf(node) + Vars(rest));
      assert (n.funcs + FuncsOf(node)) + Funcs(rest) == n.funcs + (FuncsOf(node) + Funcs(rest));
    }
  }

  class Scope {
    const params: seq<Sym>
    var vars: seq<Sym>
    var funcs: seq<Sym>
    var assigneds: seq<Binding>
    var strict: bool
    var directCallToEval: bool
    var hidingArguments: bool
    var hasArguments: bool
    var upperOfEval: bool
    var needsHeapScope: bool
    var argumentsIsHeap: bool

    constructor (params: seq<Sym>)
      ensures this.params == params && vars == [] && funcs == [] && assigneds == [] && !strict
      ensures !directCallToEval && !hasArguments && (hidingArguments <==> ARGUMENTS in params)
      ensures !upperOfEval && !needsHeapScope && !argumentsIsHeap
    {
      this.params := params;
      vars, funcs, assigneds, strict := [], [], [], false;
      directCallToEval, hasArguments := false, false;
      upperOfEval, needsHeapScope, argumentsIsHeap := false, false, false;
      hidingArguments := false;
      new;
      for i := 0 to |params|
        invariant hidingArguments <==> ARGUMENTS in params[..i]
        invariant this.params == params && vars == [] && funcs == [] && assigneds == [] && !strict
        invariant !directCallToEval && !hasArguments && !upperOfEval && !needsHeapScope && !argumentsIsHeap
      {
        if params[i] == ARGUMENTS {
          hidingArguments := true;
        }
      }
    }

    method AddUnresolved(name: Sym)
      modifies this`vars
      ensures vars == old(vars) + [name]
    {
      vars := vars + [name];
    }

    method AddFunctionDeclaration(name: Sym)
      modifies this`funcs, this`hidingArguments
      ensures funcs == old(funcs) + [name]
      ensures hidingArguments <==> old(hidingArguments) || name == ARGUMENTS
    {
      if name == ARGUMENTS {
        hidingArguments := true;
      }
      funcs := funcs + [name];
    }

    predicate IsParametersInHeap()
      reads this`hidingArguments, this`hasArguments, this`directCallToEval, this`strict
    {
      !hidingArguments && (hasArguments || directCallToEval) && !strict
    }

    ghost function Noted(): Notes
      reads this
    {
      Notes(vars, funcs, directCallToEval, hasArguments, hidingArguments)
    }

    method RollUp(own: Option<Sym>)
      requires assigneds == []
      modifies this`assigneds
      ensures assigneds == RolledUp(params, funcs, vars, own, IsParametersInHeap())
    {
      var already := AddParameters();
      already := AddNames(funcs, already);
      already := AddNames(vars, already);
      if own.Some? {
        DeclaresIsBound(assigneds, own.value);
        if own.value !in already && own.value != ARGUMENTS {
          assigneds := assigneds + [Binding(own.value, false)];
        }
      }
    }

    /** The parameters come first, the last of equal names winning. */
    method AddParameters() returns (already: set<Sym>)
      requires assigneds == []
      modifies this`assigneds
      ensures assigneds == AddNew([], Reversed(params), IsParametersInHeap())
      ensures already == BoundSyms(assigneds)
    {
      var parametersAreInHeap := IsParametersInHeap();
      already := {};
      var i := |params|;
      assert params[..i] == params;
      hide AddNew, Reversed;
      while i > 0
        invariant 0 <= i <= |params|
        invariant already == BoundSyms(assigneds)
        invariant AddNew(assigneds, Reversed(params[..i]), parametersAreInHeap)
          == AddNew([], Reversed(params), parametersAreInHeap)
      {
        AddNewReversed(assigneds, params, i, parametersAreInHeap);
        i := i - 1;
        var sym := params[i];
        DeclaresIsBound(assigneds, sym);
        if sym !in already {
          already := already + {sym};
          assigneds := Append(assigneds, Binding(sym, parametersAreInHeap));
        }
      }
      AddNewNothing(assigneds, params, parametersAreInHeap);
    }

    method AddNames(syms: seq<Sym>, already: set<Sym>) returns (r: set<Sym>)
      requires already == BoundSyms(assigneds)
      modifies this`assigneds
      ensures assigneds == AddNew(old(assigneds), syms, false)
      ensures r == BoundSyms(assigneds)
    {
      r := already;
      for i := 0 to |syms|
        invariant r == BoundSyms(assigneds)
        invariant AddNew(assigneds, syms[i..], false) == AddNew(old(assigneds), syms, false)
      {
        var sym := syms[i];
        DeclaresIsBound(assigneds, sym);
        if sym !in r {
          r := r + {sym};
          assigneds := Append(assigneds, Binding(sym, false));
        }
      }
    }
  }

  function Append(bs: seq<Binding>, b: Binding): (r: seq<Binding>)
    ensures BoundSyms(r) == BoundSyms(bs) + {b.sym}
  {
    assert (bs + [b])[|bs|] == b;
    assert forall i :: 0 <= i < |bs| ==> (bs + [b])[i] == bs[i];
    bs + [b]
  }

  lemma AddNewReversed(bs: seq<Binding>, params: seq<Sym>, i: nat, heap: bool)
    requires 0 < i <= |params|
    ensures var x := params[i - 1];
      AddNew(bs, Reversed(params[..i]), heap) ==
        AddNew(if Declares(bs, x) then bs else bs + [Binding(x, heap)], Reversed(params[..i - 1]), heap)
  {
    assert params[..i][..i - 1] == params[..i - 1];
    assert Reversed(params[..i])[1..] == Reversed(params[..i - 1]);
  }

  lemma AddNewNothing(bs: seq<Binding>, params: seq<Sym>, heap: bool)
    ensures AddNew(bs, Reversed(params[..0]), heap) == bs
  {
  }

  // ----- resolution -----

  /** What resolution leaves behind in the scope. */
  ghost predicate Resolved(scope: Scope, own: Option<Sym>, free: SymbolMap, direct: bool, inside: bool)
    reads scope
  {
    var declared := RolledUp(scope.params, scope.funcs, scope.vars, own, scope.IsParametersInHeap());
    && scope.assigneds == Settle(declared, free)
    && scope.argumentsIsHeap == (!Declares(declared, ARGUMENTS) && ARGUMENTS in free && free[ARGUMENTS])
    && scope.needsHeapScope ==
      (scope.argumentsIsHeap || direct
        || (if inside then scope.assigneds != []
            else exists i :: 0 <= i < |scope.assigneds| && scope.assigneds[i].heap))
  }

  ghost predicate SettledTo(declared: seq<Binding>, free: SymbolMap, now: seq<Binding>, i: nat)
  {
    |now| == |declared| && i <= |now|
    && (forall j :: 0 <= j < i ==>
          now[j] == Binding(declared[j].sym, declared[j].heap || (declared[j].sym in free && free[declared[j].sym])))
    && (forall j :: i <= j < |now| ==> now[j] == declared[j])
  }

  /** Binds the references that were collected for this function, and sends the others outwards. */
  method Resolve(env: Environment, scope: Scope, own: Option<Sym>)
    requires env.Linked() && env.kind == FunctionBody
    requires scope.assigneds == [] && !scope.needsHeapScope && !scope.argumentsIsHeap
    modifies env, env.enclosing, scope
    ensures Resolved(scope, own, old(env.unresolved), old(env.directCallToEval), old(env.upperOfEval))
    ensures scope.vars == old(scope.vars) && scope.funcs == old(scope.funcs)
    ensures scope.IsParametersInHeap() == old(scope.IsParametersInHeap())
    ensures env.upper != null ==>
      env.upper.States() == Pushed(old(env.upper.States()), AllTrue(LeftOver(scope, own, old(env.unresolved))))
  {
    env.NotEnclosed();
    ghost var free := env.unresolved;
    Settles(env, scope, own);
    hide RolledUp, Settle, BoundSyms, AddNew, Pushed, Free, Declares, Resolved, LeftOver;
    if env.upper != null {
      assert env.upper.States() == old(env.upper.States());
      SendOutwards(env.upper, env.unresolved);
    }
  }

  /** The references that the scope does not bind. */
  ghost function LeftOver(scope: Scope, own: Option<Sym>, free: SymbolMap): SymbolMap
    reads scope
  {
    free - BoundSyms(RolledUp(scope.params, scope.funcs, scope.vars, own, scope.IsParametersInHeap())) - {ARGUMENTS}
  }

  method Settles(env: Environment, scope: Scope, own: Option<Sym>)
    requires scope.assigneds == [] && !scope.needsHeapScope && !scope.argumentsIsHeap
    modifies env`unresolved, scope`upperOfEval, scope`assigneds, scope`argumentsIsHeap, scope`needsHeapScope
    ensures Resolved(scope, own, old(env.unresolved), env.directCallToEval, env.upperOfEval)
    ensures env.unresolved == LeftOver(scope, own, old(env.unresolved))
  {
    hide RolledUp, Settle, BoundSyms, AddNew, Pushed, Free, Declares, Scope.IsParametersInHeap, DistinctSyms;
    ghost var free := env.unresolved;
    ghost var declared := BindAll(env, scope, own);
    HoldArguments(env, scope);
    DecideHeapScope(env, scope);
    assert env.unresolved == free - BoundSyms(declared) - {ARGUMENTS};
  }

  /** The bindings are rolled up and take the marks of the references to them. */
  method BindAll(env: Environment, scope: Scope, own: Option<Sym>) returns (ghost declared: seq<Binding>)
    requires scope.assigneds == []
    modifies env`unresolved, scope`upperOfEval, scope`assigneds
    ensures scope.upperOfEval == env.upperOfEval
    ensures declared == RolledUp(scope.params, scope.funcs, scope.vars, own, scope.IsParametersInHeap())
    ensures scope.assigneds == Settle(declared, old(env.unresolved))
    ensures env.unresolved == old(env.unresolved) - BoundSyms(declared)
    ensures Declares(declared, ARGUMENTS) <==> ARGUMENTS in BoundSyms(declared)
  {
    scope.upperOfEval := env.upperOfEval;
    scope.RollUp(own);
    declared := scope.assigneds;
    RolledUpIs(scope.params, scope.funcs, scope.vars, own, scope.IsParametersInHeap());
    DeclaresIsBound(declared, ARGUMENTS);
    hide RolledUp, Settle, BoundSyms, AddNew, Declares, Scope.IsParametersInHeap;
    BindReferences(env, scope);
  }

  method SendOutwards(upper: Environment, unresolved: SymbolMap)
    requires upper.Linked()
    modifies upper, upper.enclosing
    ensures upper.States() == Pushed(old(upper.States()), AllTrue(unresolved))
  {
    if unresolved != map[] {
      upper.Propagate(unresolved);
    } else {
      PushNothing(upper.States());
    }
  }

  /** Each binding takes the mark of the references to its name. */
  method BindReferences(env: Environment, scope: Scope)
    requires DistinctSyms(scope.assigneds)
    modifies env`unresolved, scope`assigneds
    ensures scope.assigneds == Settle(old(scope.assigneds), old(env.unresolved))
    ensures env.unresolved == old(env.unresolved) - BoundSyms(old(scope.assigneds))
  {
    ghost var declared, free := scope.assigneds, env.unresolved;
    for i := 0 to |scope.assigneds|
      invariant SettledTo(declared, free, scope.assigneds, i)
      invariant env.unresolved == free - BoundSyms(declared[..i])
    {
      var b := scope.assigneds[i];
      assert b == declared[i];
      assert b.sym !in BoundSyms(declared[..i]);
      if b.sym in env.unresolved {
        scope.assigneds := scope.assigneds[i := b.(heap := b.heap || env.unresolved[b.sym])];
        env.unresolved := env.unresolved - {b.sym};
      }
      assert declared[..i + 1] == Append(declared[..i], b);
    }
    assert declared[..|declared|] == declared;
  }

  /** When no binding is named arguments, the function's own object is held in the scope. */
  method HoldArguments(env: Environment, scope: Scope)
    requires !scope.argumentsIsHeap
    modifies env`unresolved, scope`argumentsIsHeap
    ensures scope.argumentsIsHeap == (ARGUMENTS in old(env.unresolved) && old(env.unresolved)[ARGUMENTS])
    ensures env.unresolved == old(env.unresolved) - {ARGUMENTS}
  {
    if ARGUMENTS in env.unresolved {
      scope.argumentsIsHeap := env.unresolved[ARGUMENTS];
      env.unresolved := env.unresolved - {ARGUMENTS};
    }
  }

  method DecideHeapScope(env: Environment, scope: Scope)
    requires !scope.needsHeapScope
    modifies scope`needsHeapScope
    ensures scope.needsHeapScope ==
      (scope.argumentsIsHeap || env.directCallToEval
        || (if env.upperOfEval then scope.assigneds != []
            else exists i :: 0 <= i < |scope.assigneds| && scope.assigneds[i].heap))
  {
    if scope.argumentsIsHeap {
      scope.needsHeapScope := true;
    } else if env.directCallToEval {
      scope.needsHeapScope := true;
    } else if env.upperOfEval {
      scope.needsHeapScope := scope.assigneds != [];
    } else {
      for i := 0 to |scope.assigneds|
        invariant !scope.needsHeapScope && forall j :: 0 <= j < i ==> !scope.assigneds[j].heap
      {
        if scope.assigneds[i].heap {
          scope.needsHeapScope := true;
          assert scope.assigneds[i].heap;
          return;
        }
      }
    }
  }

  /** The end of a function's body: its scope is settled and the rest sent outwards. */
  method FinishFunction(env: Environment, scope: Scope, kind: DeclType, fn: Fn, inner: seq<ScopeInfo>) returns (info: ScopeInfo)
    requires env.Linked()
    requires env.State() == EnvState(FunctionBody, Free(fn.body), CallsEvalPlainly(fn.body), ContainsEval(fn.body))
    requires scope.params == fn.params && scope.assigneds == [] && !scope.needsHeapScope && !scope.argumentsIsHeap
    requires scope.Noted() == Collect(Notes([], [], false, false, ARGUMENTS in fn.params), fn.body)
    requires inner == Inner(fn.body)
    modifies env, env.enclosing, scope
    ensures info == Analyze(kind, fn)
    ensures env.upper != null ==> env.upper.States() == Pushed(old(env.upper.States()), FreeOf(Function(kind, fn)))
  {
    hide Pushed, Free, FreeOf, Inner, Analyze, CallsEval, CallsEvalPlainly, ContainsEval, Vars, Funcs,
         MentionsArguments, Resolved, LeftOver,
      BoundSyms, AllTrue, RolledUp;
    scope.strict := fn.strict;
    assert scope.vars == Vars(fn.body) && scope.funcs == Funcs(fn.body);
    assert scope.IsParametersInHeap() == ParametersInHeap(fn);
    hide Collect, ParametersInHeap, Scope.IsParametersInHeap;
    Resolve(env, scope, if kind == DECLARATION then None else fn.name);
    ResolvedIs(scope, kind, fn);
    info := ScopeInfo(scope.assigneds, scope.needsHeapScope, scope.argumentsIsHeap, inner);
  }

  // ----- the parser's part -----

  /** The parser's current environment and scope; each construct restores what it found. */
  class Parser {
    var environment: Environment?
    var scope: Scope?

    constructor ()
      ensures environment == null && scope == null
    {
      environment, scope := null, null;
    }

    ghost function Chain(): set<object>
      reads this
    {
      if environment == null then {} else {environment} + environment.enclosing
    }

    method ParseNodes(nodes: seq<Node>) returns (infos: seq<ScopeInfo>)
      requires environment != null && scope != null && environment.Linked()
      modifies this, Chain(), scope`vars, scope`funcs, scope`directCallToEval, scope`hasArguments, scope`hidingArguments
      ensures environment == old(environment) && scope == old(scope)
      ensures environment.States() == After(old(environment.States()), nodes)
      ensures scope.Noted() == Collect(old(scope.Noted()), nodes)
      ensures infos == Inner(nodes)
      decreases nodes, 2
    {
      AfterCons(environment.States(), nodes);
      CollectCons(scope.Noted(), nodes);
      assert nodes != [] ==> Inner(nodes) == InnerOf(nodes[0]) + Inner(nodes[1..]);
      hide After, AfterOf, Collect, CollectOf, InnerOf;
      if nodes == [] {
        return [];
      }
      var first := ParseNode(nodes[0]);
      var rest := ParseNodes(nodes[1..]);
      infos := first + rest;
    }

    method ParseNode(node: Node) returns (infos: seq<ScopeInfo>)
      requires environment != null && scope != null && environment.Linked()
      modifies this, Chain(), scope`vars, scope`funcs, scope`directCallToEval, scope`hasArguments, scope`hidingArguments
      ensures environment == old(environment) && scope == old(scope)
      ensures environment.States() == AfterOf(old(environment.States()), node)
      ensures scope.Noted() == CollectOf(old(scope.Noted()), node)
      ensures infos == InnerOf(node)
      decreases node, 1
    {
      hide Flagged, Pushed, Free, Inner, Analyze, ContainsEval;
      infos := [];
      match node {
        case Ref(x) =>
          MeetIdentifier(x);
        case Var(x) =>
          MeetVariable(x);
        case EvalCall =>
          MeetEvalCall();
        case With(body) =>
          infos := ParseBlock(WithBlock, body);
        case Catch(param, body) =>
          infos := ParseBlock(CatchBlock(param), body);
        case Function(kind, fn) =>
          var info := ParseFunctionLiteral(kind, fn);
          infos := [info];
          Declare(kind, fn);
      }
    }

    method MeetVariable(x: Sym)
      requires environment != null && scope != null && environment.Linked()
      modifies scope`vars
      ensures environment.States() == AfterOf(old(environment.States()), Var(x))
      ensures scope.Noted() == CollectOf(old(scope.Noted()), Var(x))
    {
      scope.AddUnresolved(x);
      PushNothing(environment.States());
      FlagNothing(environment.States());
    }

    method MeetEvalCall()
      requires environment != null && scope != null && environment.Linked()
      modifies Chain(), scope`directCallToEval
      ensures environment.States() == AfterOf(old(environment.States()), EvalCall)
      ensures scope.Noted() == CollectOf(old(scope.Noted()), EvalCall)
    {
      PushNothing(environment.States());
      scope.directCallToEval := true;
      environment.RecordDirectCallToEval();
    }

    method MeetIdentifier(x: Sym)
      requires environment != null && scope != null && environment.Linked()
      modifies Chain(), scope`hasArguments
      ensures environment.States() == AfterOf(old(environment.States()), Ref(x))
      ensures scope.Noted() == CollectOf(old(scope.Noted()), Ref(x))
    {
      FlagNothing(Pushed(environment.States(), FreeOf(Ref(x))));
      if x == ARGUMENTS {
        scope.hasArguments := true;
      }
      environment.Mention(x);
    }

    /** A declaration is a function of the enclosing scope, a statement one of its variables. */
    method Declare(kind: DeclType, fn: Fn)
      requires scope != null
      modifies scope`vars, scope`funcs, scope`hidingArguments
      ensures scope.Noted() == CollectOf(old(scope.Noted()), Function(kind, fn))
    {
      if kind == DECLARATION && fn.name.Some? {
        scope.AddFunctionDeclaration(fn.name.value);
      } else if kind == STATEMENT && fn.name.Some? {
        scope.AddUnresolved(fn.name.value);
      }
    }

    /** The body of a with or catch statement, in an environment of its own. */
    method ParseBlock(kind: Kind, body: seq<Node>) returns (infos: seq<ScopeInfo>)
      requires kind != FunctionBody
      requires environment != null && scope != null && environment.Linked()
      modifies this, Chain(), scope`vars, scope`funcs, scope`directCallToEval, scope`hasArguments, scope`hidingArguments
      ensures environment == old(environment) && scope == old(scope)
      ensures environment.States() ==
        Flagged(Pushed(old(environment.States()),
                       if kind == WithBlock then AllTrue(Free(body)) else Free(body) - {kind.target}),
                false, ContainsEval(body))
      ensures scope.Noted() == Collect(old(scope.Noted()), body)
      ensures infos == Inner(body)
      decreases body, 3
    {
      var upper := environment;
      InsideBlock(upper.States(), kind, body);
      hide After, Pushed, Flagged, Free, Collect, Inner;
      environment := new Environment(kind, upper);
      assert environment.States() == [Opened(kind)] + old(environment.States());
      infos := ParseNodes(body);
      assert environment.States()[1..] == upper.States();
      environment := upper;
    }

    method ParseFunctionLiteral(kind: DeclType, fn: Fn) returns (info: ScopeInfo)
      requires environment != null ==> environment.Linked()
      modifies this, Chain()
      ensures environment == old(environment) && scope == old(scope)
      ensures environment != null ==>
        environment.States() ==
          Flagged(Pushed(old(environment.States()), FreeOf(Function(kind, fn))), false, ContainsEval(fn.body))
      ensures info == Analyze(kind, fn)
      decreases fn, 4
    {
      hide Pushed, Flagged, FreeOf, ContainsEval, Analyze;
      var upper, outerScope := environment, scope;
      environment := new Environment(FunctionBody, upper);
      scope := new Scope(fn.params);
      info := ParseFunctionBody(kind, fn);
      environment, scope := upper, outerScope;
    }

    method ParseFunctionBody(kind: DeclType, fn: Fn) returns (info: ScopeInfo)
      requires environment != null && scope != null && environment.Linked()
      requires environment.State() == Opened(FunctionBody)
      requires scope.params == fn.params && scope.Noted() == Notes([], [], false, false, ARGUMENTS in fn.params)
      requires scope.assigneds == [] && !scope.needsHeapScope && !scope.argumentsIsHeap
      modifies this, Chain(), scope
      ensures environment == old(environment) && scope == old(scope)
      ensures environment.upper != null ==>
        environment.upper.States() ==
          Flagged(Pushed(old(environment.upper.States()), FreeOf(Function(kind, fn))), false, ContainsEval(fn.body))
      ensures info == Analyze(kind, fn)
      decreases fn, 3
    {
      ghost var upper := environment.upper;
      ghost var cs := if upper == null then [] else upper.States();
      InsideFunction(cs, kind, fn);
      hide After, Pushed, Flagged, Free, FreeOf, Collect, Inner, CallsEvalPlainly, ContainsEval, Analyze;
      assert environment.States() == [Opened(FunctionBody)] + cs;
      var inner := ParseNodes(fn.body);
      assert environment.State() == environment.States()[0];
      assert upper != null ==> upper.States() == environment.States()[1..];
      info := FinishFunction(environment, scope, kind, fn, inner);
    }

    /** The whole program: what the environments leave in every scope is what the tree demands. */
    method ParseProgram(body: seq<Node>, strict: bool) returns (info: ScopeInfo)
      requires environment == null
      modifies this
      ensures info == Analyze(DECLARATION, Fn(None, [], strict, body))
      ensures environment == null
    {
      info := ParseFunctionLiteral(DECLARATION, Fn(None, [], strict, body));
    }
  }

  lemma InsideBlock(cs: seq<EnvState>, kind: Kind, body: seq<Node>)
    requires kind != FunctionBody
    ensures After([Opened(kind)] + cs, body)[1..] ==
      Flagged(Pushed(cs, if kind == WithBlock then AllTrue(Free(body)) else Free(body) - {kind.target}),
              false, ContainsEval(body))
  {
    assert ([Opened(kind)] + cs)[1..] == cs;
  }

  lemma InsideFunction(cs: seq<EnvState>, kind: DeclType, fn: Fn)
    ensures var after := After([Opened(FunctionBody)] + cs, fn.body);
      && after[0] == EnvState(FunctionBody, Free(fn.body), CallsEvalPlainly(fn.body), ContainsEval(fn.body))
      && after[1..] == Flagged(cs, false, ContainsEval(fn.body))
    ensures var left := FreeOf(Function(kind, fn));
      Pushed(Flagged(cs, false, ContainsEval(fn.body)), left) == Flagged(Pushed(cs, left), false, ContainsEval(fn.body))
  {
    assert ([Opened(FunctionBody)] + cs)[1..] == cs;
    MergeNothing(Free(fn.body));
    PushCommutesWithFlag(cs, FreeOf(Function(kind, fn)), false, ContainsEval(fn.body));
  }

  lemma ResolvedIs(scope: Scope, kind: DeclType, fn: Fn)
    requires scope.params == fn.params && scope.vars == Vars(fn.body) && scope.funcs == Funcs(fn.body)
    requires scope.IsParametersInHeap() == ParametersInHeap(fn)
    requires Resolved(scope, OwnName(kind, fn), Free(fn.body), CallsEvalPlainly(fn.body), ContainsEval(fn.body))
    ensures ScopeInfo(scope.assigneds, scope.needsHeapScope, scope.argumentsIsHeap, Inner(fn.body)) == Analyze(kind, fn)
    ensures AllTrue(LeftOver(scope, OwnName(kind, fn), Free(fn.body))) == FreeOf(Function(kind, fn))
  {
  }
}
