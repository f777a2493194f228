/**
 * The tree of scopes as the parser meets it, a declarative resolver over reference
 * occurrences, and the recursive computation that the environments perform piecemeal.
 */
module ScopeTree {
  import opened Basics

  type Sym = string

  const ARGUMENTS: Sym := "arguments"

  datatype DeclType = DECLARATION | STATEMENT | EXPRESSION

  /** What the parser meets inside a function body, in source order. */
  datatype Node =
    | Ref(sym: Sym)                           // an identifier expression
    | Var(sym: Sym)                           // a variable declaration
    | EvalCall                                // a call whose callee is the identifier eval
    | With(body: seq<Node>)                   // the statement of a with statement
    | Catch(param: Sym, body: seq<Node>)      // a catch block
    | Function(kind: DeclType, fn: Fn)

  datatype Fn = Fn(name: Option<Sym>, params: seq<Sym>, strict: bool, body: seq<Node>)

  datatype Binding = Binding(sym: Sym, heap: bool)

  /** What resolving a function leaves in its scope, and in those of the functions inside it. */
  datatype ScopeInfo = ScopeInfo(bindings: seq<Binding>, needsHeap: bool, argumentsIsHeap: bool, inner: seq<ScopeInfo>)

  // ----- what a body declares -----

  /** Names of function declarations of this function; with and catch blocks are not scopes for them. */
  function Funcs(nodes: seq<Node>): seq<Sym>
    decreases nodes, 1
  {
    if nodes == [] then [] else FuncsOf(nodes[0]) + Funcs(nodes[1..])
  }

  function FuncsOf(node: Node): seq<Sym>
    decreases node, 0
  {
    match node
    case Function(kind, fn) => if kind == DECLARATION && fn.name.Some? then [fn.name.value] else []
    case With(b) => Funcs(b)
    case Catch(_, b) => Funcs(b)
    case _ => []
  }

  function Vars(nodes: seq<Node>): seq<Sym>
    decreases nodes, 1
  {
    if nodes == [] then [] else VarsOf(nodes[0]) + Vars(nodes[1..])
  }

  function VarsOf(node: Node): seq<Sym>
    decreases node, 0
  {
    match node
    case Var(x) => [x]
    case Function(kind, fn) => if kind == STATEMENT && fn.name.Some? then [fn.name.value] else []
    case With(b) => Vars(b)
    case Catch(_, b) => Vars(b)
    case _ => []
  }

  /** The identifier `arguments` is mentioned by this function itself. */
  predicate MentionsArguments(nodes: seq<Node>)
    decreases nodes, 1
  {
    nodes != [] && (ArgumentsIn(nodes[0]) || MentionsArguments(nodes[1..]))
  }

  predicate ArgumentsIn(node: Node)
    decreases node, 0
  {
    match node
    case Ref(x) => x == ARGUMENTS
    case With(b) => MentionsArguments(b)
    case Catch(_, b) => MentionsArguments(b)
    case _ => false
  }

  /** A direct call to eval in this function itself. */
  predicate CallsEval(nodes: seq<Node>)
    decreases nodes, 1
  {
    nodes != [] && (CallsEvalIn(nodes[0]) || CallsEval(nodes[1..]))
  }

  predicate CallsEvalIn(node: Node)
    decreases node, 0
  {
    match node
    case EvalCall => true
    case With(b) => CallsEval(b)
    case Catch(_, b) => CallsEval(b)
    case _ => false
  }

  /** A direct call to eval outside any with or catch block. */
  predicate CallsEvalPlainly(nodes: seq<Node>)
  {
    exists i :: 0 <= i < |nodes| && nodes[i] == EvalCall
  }

  /** A direct call to eval here or in a function inside. */
  predicate ContainsEval(nodes: seq<Node>)
    decreases nodes, 1
  {
    nodes != [] && (EvalIn(nodes[0]) || ContainsEval(nodes[1..]))
  }

  predicate EvalIn(node: Node)
    decreases node, 0
  {
    match node
    case EvalCall => true
    case With(b) => ContainsEval(b)
    case Catch(_, b) => ContainsEval(b)
    case Function(_, fn) => ContainsEval(fn.body)
    case _ => false
  }

  predicate Declares(bs: seq<Binding>, x: Sym)
  {
    exists i :: 0 <= i < |bs| && bs[i].sym == x
  }

  function AddNew(bs: seq<Binding>, syms: seq<Sym>, heap: bool): seq<Binding>
    decreases |syms|
  {
    if syms == [] then bs
    else AddNew(if Declares(bs, syms[0]) then bs else bs + [Binding(syms[0], heap)], syms[1..], heap)
  }

  /** Parameters (the last of equal names first), function declarations, variables, the function's own name. */
  function RolledUp(params: seq<Sym>, funcs: seq<Sym>, vars: seq<Sym>, own: Option<Sym>, paramsInHeap: bool): seq<Binding>
  {
    var bs := AddNew(AddNew(AddNew([], Reversed(params), paramsInHeap), funcs, false), vars, false);
    if own.Some? && !Declares(bs, own.value) && own.value != ARGUMENTS then bs + [Binding(own.value, false)] else bs
  }

  /** A name that the function itself can see: that of a function expression or statement. */
  function OwnName(kind: DeclType, fn: Fn): Option<Sym>
  {
    if kind == DECLARATION then None else fn.name
  }

  predicate ParametersInHeap(fn: Fn)
  {
    !(ARGUMENTS in fn.params || ARGUMENTS in Funcs(fn.body))
    && (MentionsArguments(fn.body) || CallsEval(fn.body)) && !fn.strict
  }

  function Declared(kind: DeclType, fn: Fn): seq<Binding>
  {
    RolledUp(fn.params, Funcs(fn.body), Vars(fn.body), OwnName(kind, fn), ParametersInHeap(fn))
  }

  // ----- the declarative resolver -----

  /** The node at a path: which node, then which node inside it, and so on. */
  function NodeAt(nodes: seq<Node>, path: seq<nat>): Option<Node>
    decreases path
  {
    if path == [] || path[0] >= |nodes| then None
    else if |path| == 1 then Some(nodes[path[0]])
    else
      match nodes[path[0]]
      case With(b) => NodeAt(b, path[1..])
      case Catch(_, b) => NodeAt(b, path[1..])
      case Function(_, fn) => NodeAt(fn.body, path[1..])
      case _ => None
  }

  /** The path enters a function before its end. */
  predicate Enters(nodes: seq<Node>, path: seq<nat>)
    decreases path
  {
    |path| > 1 && path[0] < |nodes| &&
    match nodes[path[0]]
    case With(b) => Enters(b, path[1..])
    case Catch(_, b) => Enters(b, path[1..])
    case Function(_, _) => true
    case _ => false
  }

  /** At the path, outside all inner functions, there is a node of some kind. */
  ghost predicate OwnAt(nodes: seq<Node>, path: seq<nat>, kind: Node -> bool)
  {
    NodeAt(nodes, path).Some? && kind(NodeAt(nodes, path).value) && !Enters(nodes, path)
  }

  ghost predicate Has(nodes: seq<Node>, kind: Node -> bool)
  {
    exists path :: OwnAt(nodes, path, kind)
  }

  function Same(node: Node): Node -> bool { (n: Node) => n == node }

  function Named(kind: DeclType, x: Sym): Node -> bool { (n: Node) => n.Function? && n.kind == kind && n.fn.name == Some(x) }

  /** The function binds x: as a parameter, by a declaration in it, or as its own name. */
  ghost predicate Binds(kind: DeclType, fn: Fn, x: Sym)
  {
    || x in fn.params
    || Has(fn.body, Named(DECLARATION, x)) || Has(fn.body, Named(STATEMENT, x)) || Has(fn.body, Same(Var(x)))
    || (kind != DECLARATION && fn.name == Some(x) && x != ARGUMENTS)
  }

  /** The parameters may be reached through `arguments`: it is not strict, not hidden, and named or within reach of eval. */
  ghost predicate KeptForArguments(fn: Fn)
  {
    && !fn.strict && ARGUMENTS !in fn.params && !Has(fn.body, Named(DECLARATION, ARGUMENTS))
    && (Has(fn.body, Same(Ref(ARGUMENTS))) || Has(fn.body, Same(EvalCall)))
  }

  /** On the way out from the path's end, a with block or a function boundary is crossed. */
  predicate Crosses(nodes: seq<Node>, path: seq<nat>)
    decreases path
  {
    path != [] && path[0] < |nodes| &&
    match nodes[path[0]]
    case With(_) => true
    case Catch(_, b) => Crosses(b, path[1..])
    case Function(_, _) => true
    case _ => false
  }

  /** On the way out, x is bound: by a catch block, by a function, or as a function's `arguments`. */
  ghost predicate Trapped(nodes: seq<Node>, path: seq<nat>, x: Sym)
    decreases path
  {
    path != [] && path[0] < |nodes| &&
    match nodes[path[0]]
    case With(b) => Trapped(b, path[1..], x)
    case Catch(p, b) => p == x || Trapped(b, path[1..], x)
    case Function(kind, fn) => x == ARGUMENTS || Binds(kind, fn, x) || Trapped(fn.body, path[1..], x)
    case _ => false
  }

  /** The occurrence at the path is a reference to the x of the scope whose body this is. */
  ghost predicate RefersOut(nodes: seq<Node>, path: seq<nat>, x: Sym)
  {
    NodeAt(nodes, path) == Some(Ref(x)) && !Trapped(nodes, path, x)
  }

  /** Some reference to the x of this scope crosses a with block or a function boundary. */
  ghost predicate ReferredAcross(nodes: seq<Node>, x: Sym)
  {
    exists path :: RefersOut(nodes, path, x) && Crosses(nodes, path)
  }

  // ----- the computation -----

  /** Symbol to "must be in the heap", as kept in `unresolved_`. */
  type SymbolMap = map<Sym, bool>

  function Merge(a: SymbolMap, b: SymbolMap): SymbolMap
  {
    map x | x in a.Keys + b.Keys :: (x in a && a[x]) || (x in b && b[x])
  }

  function AllTrue(m: SymbolMap): SymbolMap
  {
    map x | x in m :: true
  }

  function BoundSyms(bs: seq<Binding>): set<Sym>
  {
    set i | 0 <= i < |bs| :: bs[i].sym
  }

  /** References that leave the nodes, and whether one of them crossed a boundary. */
  function Free(nodes: seq<Node>): SymbolMap
    decreases nodes, 1
  {
    if nodes == [] then map[] else Merge(FreeOf(nodes[0]), Free(nodes[1..]))
  }

  function FreeOf(node: Node): SymbolMap
    decreases node, 0
  {
    match node
    case Ref(x) => map[x := false]
    case With(b) => AllTrue(Free(b))
    case Catch(p, b) => Free(b) - {p}
    case Function(kind, fn) => AllTrue(Free(fn.body) - BoundSyms(Declared(kind, fn)) - {ARGUMENTS})
    case _ => map[]
  }

  function Settle(bs: seq<Binding>, free: SymbolMap): seq<Binding>
  {
    seq(|bs|, i requires 0 <= i < |bs| => Binding(bs[i].sym, bs[i].heap || (bs[i].sym in free && free[bs[i].sym])))
  }

  /** What resolution must find for a function, from its tree alone. */
  function Analyze(kind: DeclType, fn: Fn): ScopeInfo
    decreases fn, 1
  {
    var free := Free(fn.body);
    var declared := Declared(kind, fn);
    var bindings := Settle(declared, free);
    var argumentsIsHeap := !Declares(declared, ARGUMENTS) && ARGUMENTS in free && free[ARGUMENTS];
    var needsHeap := argumentsIsHeap || CallsEvalPlainly(fn.body)
      || (if ContainsEval(fn.body) then bindings != [] else exists i :: 0 <= i < |bindings| && bindings[i].heap);
    ScopeInfo(bindings, needsHeap, argumentsIsHeap, Inner(fn.body))
  }

  /** The functions inside, in source order. */
  function Inner(nodes: seq<Node>): seq<ScopeInfo>
    decreases nodes, 1
  {
    if nodes == [] then [] else InnerOf(nodes[0]) + Inner(nodes[1..])
  }

  function InnerOf(node: Node): seq<ScopeInfo>
    decreases node, 0
  {
    match node
    case With(b) => Inner(b)
    case Catch(_, b) => Inner(b)
    case Function(kind, fn) => [Analyze(kind, fn)]
    case _ => []
  }

  // ----- what a body declares and mentions, by paths -----

  /** The same search as recursion over the nodes. */
  ghost predicate Finds(nodes: seq<Node>, kind: Node -> bool)
    decreases nodes, 1
  {
    nodes != [] && (FindsIn(nodes[0], kind) || Finds(nodes[1..], kind))
  }

  ghost predicate FindsIn(node: Node, kind: Node -> bool)
    decreases node, 0
  {
    kind(node) || (node.With? && Finds(node.body, kind)) || (node.Catch? && Finds(node.body, kind))
  }

  lemma {:induction false} FindsAt(nodes: seq<Node>, i: nat, kind: Node -> bool)
    requires i < |nodes| && FindsIn(nodes[i], kind)
    ensures Finds(nodes, kind)
  {
    if i > 0 {
      FindsAt(nodes[1..], i - 1, kind);
    }
  }

  lemma {:induction false} PathFinds(nodes: seq<Node>, path: seq<nat>, kind: Node -> bool)
    requires OwnAt(nodes, path, kind)
    ensures Finds(nodes, kind)
    decreases path
  {
    var node := nodes[path[0]];
    if |path| > 1 {
      if node.With? {
        PathFinds(node.body, path[1..], kind);
      } else if node.Catch? {
        PathFinds(node.body, path[1..], kind);
      }
    }
    FindsAt(nodes, path[0], kind);
  }

  lemma {:induction false} FindsPath(nodes: seq<Node>, kind: Node -> bool) returns (path: seq<nat>)
    requires Finds(nodes, kind)
    ensures OwnAt(nodes, path, kind)
    decreases nodes, 1
  {
    if FindsIn(nodes[0], kind) {
      path := FindsInPath(nodes[0], nodes, kind);
    } else {
      var p := FindsPath(nodes[1..], kind);
      path := [p[0] + 1] + p[1..];
      assert path[1..] == p[1..];
    }
  }

  lemma {:induction false} FindsInPath(node: Node, nodes: seq<Node>, kind: Node -> bool) returns (path: seq<nat>)
    requires FindsIn(node, kind) && nodes != [] && nodes[0] == node
    ensures OwnAt(nodes, path, kind)
    decreases node, 0
  {
    if kind(node) {
      path := [0];
    } else {
      var p := FindsPath(node.body, kind);
      path := [0] + p;
      assert path[1..] == p;
    }
  }

  lemma HasIs(nodes: seq<Node>, kind: Node -> bool)
    ensures Has(nodes, kind) <==> Finds(nodes, kind)
  {
    if Finds(nodes, kind) {
      var path := FindsPath(nodes, kind);
    }
    forall path | OwnAt(nodes, path, kind)
      ensures Finds(nodes, kind)
    {
      PathFinds(nodes, path, kind);
    }
  }

  lemma {:induction false} FuncsFound(nodes: seq<Node>, x: Sym)
    ensures x in Funcs(nodes) <==> Finds(nodes, Named(DECLARATION, x))
    decreases nodes, 1
  {
    if nodes != [] {
      FuncsOfFound(nodes[0], x);
      FuncsFound(nodes[1..], x);
    }
  }

  lemma {:induction false} FuncsOfFound(node: Node, x: Sym)
    ensures x in FuncsOf(node) <==> FindsIn(node, Named(DECLARATION, x))
    decreases node, 0
  {
    if node.With? {
      FuncsFound(node.body, x);
    } else if node.Catch? {
      FuncsFound(node.body, x);
    }
  }

  lemma {:induction false} VarsFound(nodes: seq<Node>, x: Sym)
    ensures x in Vars(nodes) <==> Finds(nodes, Same(Var(x))) || Finds(nodes, Named(STATEMENT, x))
    decreases nodes, 1
  {
    if nodes != [] {
      VarsOfFound(nodes[0], x);
      VarsFound(nodes[1..], x);
    }
  }

  lemma {:induction false} VarsOfFound(node: Node, x: Sym)
    ensures x in VarsOf(node) <==> FindsIn(node, Same(Var(x))) || FindsIn(node, Named(STATEMENT, x))
    decreases node, 0
  {
    if node.With? {
      VarsFound(node.body, x);
    } else if node.Catch? {
      VarsFound(node.body, x);
    }
  }

  lemma {:induction false} MentionsFound(nodes: seq<Node>)
    ensures MentionsArguments(nodes) <==> Finds(nodes, Same(Ref(ARGUMENTS)))
    ensures CallsEval(nodes) <==> Finds(nodes, Same(EvalCall))
    decreases nodes, 1
  {
    if nodes != [] {
      MentionsInFound(nodes[0]);
      MentionsFound(nodes[1..]);
    }
  }

  lemma {:induction false} MentionsInFound(node: Node)
    ensures ArgumentsIn(node) <==> FindsIn(node, Same(Ref(ARGUMENTS)))
    ensures CallsEvalIn(node) <==> FindsIn(node, Same(EvalCall))
    decreases node, 0
  {
    if node.With? {
      MentionsFound(node.body);
    } else if node.Catch? {
      MentionsFound(node.body);
    }
  }

  /** The computed bindings of a function are those it has by its tree. */
  lemma DeclaredIsBound(kind: DeclType, fn: Fn, x: Sym)
    ensures Declares(Declared(kind, fn), x) <==> Binds(kind, fn, x)
  {
    RolledUpIs(fn.params, Funcs(fn.body), Vars(fn.body), OwnName(kind, fn), ParametersInHeap(fn));
    FuncsFound(fn.body, x);
    VarsFound(fn.body, x);
    HasIs(fn.body, Named(DECLARATION, x));
    HasIs(fn.body, Named(STATEMENT, x));
    HasIs(fn.body, Same(Var(x)));
    hide RolledUp, Funcs, Vars, Has, Finds, ParametersInHeap, Declares;
  }

  lemma ParametersAreKept(fn: Fn)
    ensures ParametersInHeap(fn) <==> KeptForArguments(fn)
  {
    FuncsFound(fn.body, ARGUMENTS);
    MentionsFound(fn.body);
    HasIs(fn.body, Named(DECLARATION, ARGUMENTS));
    HasIs(fn.body, Same(Ref(ARGUMENTS)));
    HasIs(fn.body, Same(EvalCall));
    hide Funcs, MentionsArguments, CallsEval, Has, Finds;
  }

  /** A direct call to eval is contained exactly when a path leads to one. */
  lemma {:induction false} ContainedEval(nodes: seq<Node>, path: seq<nat>)
    requires NodeAt(nodes, path) == Some(EvalCall)
    ensures ContainsEval(nodes)
    decreases path
  {
    var node := nodes[path[0]];
    if |path| > 1 {
      match node {
        case With(b) => ContainedEval(b, path[1..]);
        case Catch(_, b) => ContainedEval(b, path[1..]);
        case Function(_, fn) => ContainedEval(fn.body, path[1..]);
      }
    }
    EvalInAt(nodes, path[0]);
  }

  lemma {:induction false} EvalInAt(nodes: seq<Node>, i: nat)
    requires i < |nodes| && EvalIn(nodes[i])
    ensures ContainsEval(nodes)
  {
    if i > 0 {
      EvalInAt(nodes[1..], i - 1);
    }
  }

  lemma {:induction false} EvalPath(nodes: seq<Node>) returns (path: seq<nat>)
    requires ContainsEval(nodes)
    ensures NodeAt(nodes, path) == Some(EvalCall)
    decreases nodes, 1
  {
    if EvalIn(nodes[0]) {
      path := EvalInPath(nodes[0], nodes);
    } else {
      var p := EvalPath(nodes[1..]);
      path := [p[0] + 1] + p[1..];
      assert path[1..] == p[1..];
    }
  }

  lemma {:induction false} EvalInPath(node: Node, nodes: seq<Node>) returns (path: seq<nat>)
    requires EvalIn(node) && nodes != [] && nodes[0] == node
    ensures NodeAt(nodes, path) == Some(EvalCall)
    decreases node, 0
  {
    if node == EvalCall {
      path := [0];
    } else {
      var p := EvalPath(if node.Function? then node.fn.body else node.body);
      path := [0] + p;
      assert path[1..] == p;
    }
  }

  // ----- the computation is the resolver -----

  lemma DeclaresIsBound(bs: seq<Binding>, x: Sym)
    ensures Declares(bs, x) <==> x in BoundSyms(bs)
  {
  }

  lemma {:induction false} FreeAt(nodes: seq<Node>, i: nat, x: Sym)
    requires i < |nodes| && x in FreeOf(nodes[i])
    ensures x in Free(nodes) && (FreeOf(nodes[i])[x] ==> Free(nodes)[x])
  {
    if i > 0 {
      FreeAt(nodes[1..], i - 1, x);
    }
  }

  /** A resolved occurrence is in the computed map, marked when it crosses a boundary. */
  lemma {:induction false} OccurrenceIsFree(nodes: seq<Node>, path: seq<nat>, x: Sym)
    requires RefersOut(nodes, path, x)
    ensures x in Free(nodes) && (Crosses(nodes, path) ==> Free(nodes)[x])
    decreases path
  {
    var node := nodes[path[0]];
    match node {
      case Ref(_) =>
      case With(b) => OccurrenceIsFree(b, path[1..], x);
      case Catch(_, b) => OccurrenceIsFree(b, path[1..], x);
      case Function(kind, fn) =>
        OccurrenceIsFree(fn.body, path[1..], x);
        DeclaresIsBound(Declared(kind, fn), x);
        DeclaredIsBound(kind, fn, x);
    }
    FreeAt(nodes, path[0], x);
  }

  /** Every entry of the computed map has an occurrence, a crossing one if it is marked. */
  lemma {:induction false} FreeHasOccurrence(nodes: seq<Node>, x: Sym, crossing: bool) returns (path: seq<nat>)
    requires x in Free(nodes) && (crossing ==> Free(nodes)[x])
    ensures RefersOut(nodes, path, x) && (crossing ==> Crosses(nodes, path))
    decreases nodes, 1
  {
    if x in FreeOf(nodes[0]) && (crossing ==> FreeOf(nodes[0])[x]) {
      path := FreeOfHasOccurrence(nodes[0], nodes, x, crossing);
    } else {
      var p := FreeHasOccurrence(nodes[1..], x, crossing);
      path := [p[0] + 1] + p[1..];
      assert path[1..] == p[1..];
    }
  }

  lemma {:induction false} FreeOfHasOccurrence(node: Node, nodes: seq<Node>, x: Sym, crossing: bool) returns (path: seq<nat>)
    requires x in FreeOf(node) && (crossing ==> FreeOf(node)[x]) && nodes != [] && nodes[0] == node
    ensures RefersOut(nodes, path, x) && (crossing ==> Crosses(nodes, path))
    decreases node, 0
  {
    var p: seq<nat> := [];
    match node {
      case Ref(_) =>
      case With(b) => p := FreeHasOccurrence(b, x, false);
      case Catch(_, b) => p := FreeHasOccurrence(b, x, crossing);
      case Function(kind, fn) =>
        p := FreeHasOccurrence(fn.body, x, false);
        DeclaresIsBound(Declared(kind, fn), x);
        DeclaredIsBound(kind, fn, x);
    }
    path := [0] + p;
    assert path[1..] == p;
  }

  /** The bindings are exactly the declared names, each once. */
  lemma BindingsAreDeclared(kind: DeclType, fn: Fn)
    ensures DistinctSyms(Analyze(kind, fn).bindings)
    ensures forall x :: Declares(Analyze(kind, fn).bindings, x) <==> Binds(kind, fn, x)
  {
    RolledUpIs(fn.params, Funcs(fn.body), Vars(fn.body), OwnName(kind, fn), ParametersInHeap(fn));
    var bs, declared := Analyze(kind, fn).bindings, Declared(kind, fn);
    forall x
      ensures Declares(bs, x) <==> Binds(kind, fn, x)
    {
      DeclaredIsBound(kind, fn, x);
      if Declares(declared, x) {
        var i :| 0 <= i < |declared| && declared[i].sym == x;
        assert bs[i].sym == x;
      }
      if Declares(bs, x) {
        var i :| 0 <= i < |bs| && bs[i].sym == x;
        assert declared[i].sym == x;
      }
    }
  }

  /** Heap placement is exact: a parameter kept for `arguments`, or a reference across a boundary. */
  lemma HeapPlacement(kind: DeclType, fn: Fn, i: nat)
    requires i < |Analyze(kind, fn).bindings|
    ensures var b := Analyze(kind, fn).bindings[i];
      b.heap <==>
        || (b.sym in fn.params && KeptForArguments(fn))
        || ReferredAcross(fn.body, b.sym)
  {
    ParametersAreKept(fn);
    var declared := Declared(kind, fn);
    var x := declared[i].sym;
    RolledUpIs(fn.params, Funcs(fn.body), Vars(fn.body), OwnName(kind, fn), ParametersInHeap(fn));
    if x in Free(fn.body) && Free(fn.body)[x] {
      var path := FreeHasOccurrence(fn.body, x, true);
    }
    forall path | RefersOut(fn.body, path, x) && Crosses(fn.body, path)
      ensures x in Free(fn.body) && Free(fn.body)[x]
    {
      OccurrenceIsFree(fn.body, path, x);
    }
  }

  /** Nothing named `arguments` ever leaves a function, and what leaves has an unbound occurrence. */
  lemma LeavesFunction(kind: DeclType, fn: Fn, x: Sym)
    ensures x in FreeOf(Function(kind, fn)) <==>
      x != ARGUMENTS && !Binds(kind, fn, x) && exists path :: RefersOut(fn.body, path, x)
  {
    DeclaredIsBound(kind, fn, x);
    DeclaresIsBound(Declared(kind, fn), x);
    if x in Free(fn.body) {
      var path := FreeHasOccurrence(fn.body, x, false);
    }
    forall path | RefersOut(fn.body, path, x)
      ensures x in Free(fn.body)
    {
      OccurrenceIsFree(fn.body, path, x);
    }
  }

  // ----- rolling up -----

  ghost predicate DistinctSyms(bs: seq<Binding>)
  {
    forall i, j :: 0 <= i < j < |bs| ==> bs[i].sym != bs[j].sym
  }

  /** AddNew appends exactly the new names, each once, with the given placement. */
  lemma {:induction false} AddNewAdds(bs: seq<Binding>, syms: seq<Sym>, heap: bool)
    ensures var r := AddNew(bs, syms, heap);
      && bs <= r && (DistinctSyms(bs) ==> DistinctSyms(r))
      && (forall x :: Declares(r, x) <==> Declares(bs, x) || x in syms)
      && (forall i :: |bs| <= i < |r| ==> r[i].sym in syms && r[i].heap == heap)
    decreases |syms|
  {
    if syms != [] {
      var bs' := if Declares(bs, syms[0]) then bs else bs + [Binding(syms[0], heap)];
      AddNewAdds(bs', syms[1..], heap);
      assert forall x :: Declares(bs', x) <==> Declares(bs, x) || x == syms[0] by {
        forall x
          ensures Declares(bs', x) <==> Declares(bs, x) || x == syms[0]
        {
          DeclaresAppend(bs, Binding(syms[0], heap), x);
        }
      }
    }
  }

  lemma DeclaresAppend(bs: seq<Binding>, b: Binding, x: Sym)
    ensures Declares(bs + [b], x) <==> Declares(bs, x) || b.sym == x
  {
    assert (bs + [b])[|bs|] == b;
    if Declares(bs, x) {
      var i :| 0 <= i < |bs| && bs[i].sym == x;
      assert (bs + [b])[i].sym == x;
    }
  }

  /** The bindings before resolution: exactly the declared names, each once; only parameters may be in the heap. */
  lemma RolledUpIs(params: seq<Sym>, funcs: seq<Sym>, vars: seq<Sym>, own: Option<Sym>, inHeap: bool)
    ensures var bs := RolledUp(params, funcs, vars, own, inHeap);
      && DistinctSyms(bs)
      && (forall x :: Declares(bs, x) <==>
           x in params || x in funcs || x in vars || (own == Some(x) && x != ARGUMENTS))
      && (forall i :: 0 <= i < |bs| ==> (bs[i].heap <==> bs[i].sym in params && inHeap))
  {
    var p := AddNew([], Reversed(params), inHeap);
    var f := AddNew(p, funcs, false);
    var v := AddNew(f, vars, false);
    AddNewAdds([], Reversed(params), inHeap);
    AddNewAdds(p, funcs, false);
    AddNewAdds(f, vars, false);
    OwnNameAdds(v, own);
    forall x
      ensures x in params <==> Declares(p, x)
    {
      ReversedSame(params);
    }
    var bs := RolledUp(params, funcs, vars, own, inHeap);
    assert p <= v && v <= bs;
    PlacedByPart(params, inHeap, p, bs);
  }

  lemma OwnNameAdds(v: seq<Binding>, own: Option<Sym>)
    requires DistinctSyms(v)
    ensures var bs :=
        if own.Some? && !Declares(v, own.value) && own.value != ARGUMENTS then v + [Binding(own.value, false)] else v;
      && v <= bs && DistinctSyms(bs)
      && (forall x :: Declares(bs, x) <==> Declares(v, x) || (own == Some(x) && x != ARGUMENTS))
      && (forall i :: |v| <= i < |bs| ==> !bs[i].heap)
  {
    if own.Some? {
      forall x
        ensures Declares(v + [Binding(own.value, false)], x) <==> Declares(v, x) || own.value == x
      {
        DeclaresAppend(v, Binding(own.value, false), x);
      }
    }
  }

  lemma PlacedByPart(params: seq<Sym>, inHeap: bool, p: seq<Binding>, bs: seq<Binding>)
    requires p <= bs && DistinctSyms(bs)
    requires forall x :: x in params <==> Declares(p, x)
    requires forall i :: 0 <= i < |p| ==> p[i].heap == inHeap
    requires forall i :: |p| <= i < |bs| ==> !bs[i].heap
    ensures forall i :: 0 <= i < |bs| ==> (bs[i].heap <==> bs[i].sym in params && inHeap)
  {
    forall i | 0 <= i < |bs|
      ensures bs[i].sym in params <==> i < |p|
    {
      if Declares(p, bs[i].sym) {
        var j :| 0 <= j < |p| && p[j].sym == bs[i].sym;
        assert bs[j] == p[j];
      }
    }
  }

  /** `arguments` is in the heap exactly when the implicit one is referred to across a boundary. */
  lemma ArgumentsPlacement(kind: DeclType, fn: Fn)
    ensures Analyze(kind, fn).argumentsIsHeap <==>
      !Binds(kind, fn, ARGUMENTS)
      && ReferredAcross(fn.body, ARGUMENTS)
  {
    DeclaredIsBound(kind, fn, ARGUMENTS);
    if ARGUMENTS in Free(fn.body) && Free(fn.body)[ARGUMENTS] {
      var path := FreeHasOccurrence(fn.body, ARGUMENTS, true);
    }
    forall path | RefersOut(fn.body, path, ARGUMENTS) && Crosses(fn.body, path)
      ensures ARGUMENTS in Free(fn.body) && Free(fn.body)[ARGUMENTS]
    {
      OccurrenceIsFree(fn.body, path, ARGUMENTS);
    }
  }

  ghost predicate SomeHeap(bs: seq<Binding>)
  {
    exists i :: 0 <= i < |bs| && bs[i].heap
  }

  /** A path leads to a direct call to eval, here or in a function inside. */
  ghost predicate LeadsToEval(nodes: seq<Node>)
  {
    exists path :: NodeAt(nodes, path) == Some(EvalCall)
  }

  lemma LeadsIs(nodes: seq<Node>)
    ensures LeadsToEval(nodes) <==> ContainsEval(nodes)
  {
    if ContainsEval(nodes) {
      var path := EvalPath(nodes);
    }
    forall path | NodeAt(nodes, path) == Some(EvalCall)
      ensures ContainsEval(nodes)
    {
      ContainedEval(nodes, path);
    }
  }

  /** A name of the function, or its `arguments`, is referred to across a boundary. */
  ghost predicate OneReferredAcross(kind: DeclType, fn: Fn)
  {
    exists x :: (x == ARGUMENTS || Binds(kind, fn, x)) && ReferredAcross(fn.body, x)
  }

  /** A scope is kept in the heap for eval, for `arguments`, or for a reference across a boundary; in
      particular whenever one of its bindings is. */
  lemma NeedsHeapScope(kind: DeclType, fn: Fn)
    ensures Analyze(kind, fn).needsHeap <==>
      || (exists i :: 0 <= i < |fn.body| && fn.body[i] == EvalCall)
      || (LeadsToEval(fn.body) && exists x :: Binds(kind, fn, x))
      || (KeptForArguments(fn) && fn.params != [])
      || OneReferredAcross(kind, fn)
    ensures SomeHeap(Analyze(kind, fn).bindings) ==> Analyze(kind, fn).needsHeap
  {
    HeapScopeIs(kind, fn);
    LeadsIs(fn.body);
    ParametersAreKept(fn);
    var declared := Declared(kind, fn);
    forall x
      ensures Declares(declared, x) <==> Binds(kind, fn, x)
    {
      DeclaredIsBound(kind, fn, x);
    }
    if declared != [] {
      assert Declares(declared, declared[0].sym);
    }
  }

  lemma HeapScopeIs(kind: DeclType, fn: Fn)
    ensures Analyze(kind, fn).needsHeap <==>
      || CallsEvalPlainly(fn.body)
      || (ContainsEval(fn.body) && Declared(kind, fn) != [])
      || (ParametersInHeap(fn) && fn.params != [])
      || exists x :: (x == ARGUMENTS || Declares(Declared(kind, fn), x)) && ReferredAcross(fn.body, x)
    ensures SomeHeap(Analyze(kind, fn).bindings) ==> Analyze(kind, fn).needsHeap
  {
    var r, declared := Analyze(kind, fn), Declared(kind, fn);
    ArgumentsPlacement(kind, fn);
    DeclaredIsBound(kind, fn, ARGUMENTS);
    ParametersAreKept(fn);
    assert |r.bindings| == |declared|;
    if ParametersInHeap(fn) && fn.params != [] {
      ParameterInHeap(kind, fn);
    }
    forall x | (x == ARGUMENTS || Declares(declared, x)) && ReferredAcross(fn.body, x)
      ensures r.needsHeap
    {
      if Declares(declared, x) {
        ReferenceInHeap(kind, fn, x);
      }
    }
    if SomeHeap(r.bindings) {
      var i :| 0 <= i < |r.bindings| && r.bindings[i].heap;
      HeapPlacement(kind, fn, i);
      assert declared[i].sym == r.bindings[i].sym;
      assert Declares(declared, r.bindings[i].sym);
    }
  }

  lemma ParameterInHeap(kind: DeclType, fn: Fn)
    requires ParametersInHeap(fn) && fn.params != []
    ensures SomeHeap(Analyze(kind, fn).bindings)
  {
    var r, declared := Analyze(kind, fn), Declared(kind, fn);
    RolledUpIs(fn.params, Funcs(fn.body), Vars(fn.body), OwnName(kind, fn), true);
    assert fn.params[0] in fn.params;
    assert Declares(declared, fn.params[0]);
    var i :| 0 <= i < |declared| && declared[i].sym == fn.params[0];
    assert r.bindings[i].heap;
  }

  lemma ReferenceInHeap(kind: DeclType, fn: Fn, x: Sym)
    requires Declares(Declared(kind, fn), x) && ReferredAcross(fn.body, x)
    ensures SomeHeap(Analyze(kind, fn).bindings)
  {
    var r, declared := Analyze(kind, fn), Declared(kind, fn);
    var path :| RefersOut(fn.body, path, x) && Crosses(fn.body, path);
    OccurrenceIsFree(fn.body, path, x);
    var i :| 0 <= i < |declared| && declared[i].sym == x;
    assert r.bindings[i].heap;
  }

  // ----- inner scopes -----

  function ScopedAs(info: ScopeInfo): Node -> bool { (n: Node) => n.Function? && Analyze(n.kind, n.fn) == info }

  /** The inner scopes are those of the functions that a path leads to without entering another. */
  lemma InnerScopes(nodes: seq<Node>, info: ScopeInfo)
    ensures info in Inner(nodes) <==> Has(nodes, ScopedAs(info))
  {
    InnerFound(nodes, info);
    HasIs(nodes, ScopedAs(info));
  }

  lemma {:induction false} InnerFound(nodes: seq<Node>, info: ScopeInfo)
    ensures info in Inner(nodes) <==> Finds(nodes, ScopedAs(info))
    decreases nodes, 1
  {
    if nodes != [] {
      InnerOfFound(nodes[0], info);
      InnerFound(nodes[1..], info);
    }
  }

  lemma {:induction false} InnerOfFound(node: Node, info: ScopeInfo)
    ensures info in InnerOf(node) <==> FindsIn(node, ScopedAs(info))
    decreases node, 0
  {
    if node.With? {
      InnerFound(node.body, info);
    } else if node.Catch? {
      InnerFound(node.body, info);
    }
  }
}
