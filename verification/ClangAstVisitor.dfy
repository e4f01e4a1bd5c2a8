/** The part of plugins/cpp/parser/src/clangastvisitor.h that measures how deeply
    the statements of a function are nested. The syntax tree carries what the
    traversal looks at: statements, functions and other declarations. */
module ClangAstVisitor {
  import opened NestedScope
  import opened Wrappers

  datatype StmtKind =
    | CompoundStmt
    | IfStmt(thn: Option<StmtId>, els: Option<StmtId>)
    | BodyStmt(body: Option<StmtId>)    // while, do, for, range for, switch, try, catch
    | LabelStmt                         // case, default
    | OtherStmt

  /** A function whose AST node is already in the cache is not recorded again;
      its astNodeId stays 0. */
  datatype Node =
    | Stmt(id: StmtId, kind: StmtKind, children: seq<Node>)
    | FunctionDecl(astNodeId: nat, body: Option<StmtId>, children: seq<Node>)
    | OtherDecl(children: seq<Node>)

  datatype CppFunction = CppFunction(astNodeId: nat, bumpiness: nat, statementCount: nat)

  // ----- what the traversal computes, as a function of the tree -----

  datatype Count = Count(bumpiness: nat, statements: nat)

  const NONE := Count(0, 0)

  function ConfigOf(k: StmtKind): Config {
    match k
    case CompoundStmt => Compound
    case IfStmt(t, e) => Two(t, e)
    case BodyStmt(b) => One(b)
    case LabelStmt => Transparent
    case OtherStmt => Statement
  }

  // The scope in which something is traversed; None outside of all scopes.
  type Context = Option<View>

  function TopOf(vs: seq<View>): Context {
    if vs == [] then None else Some(Settled(vs[|vs| - 1]))
  }

  function DepthOf(ctx: Context): nat {
    if ctx.None? then 0 else ctx.value.depth
  }

  // The configured scope of a statement.
  function StmtView(ctx: Context, id: StmtId, kind: StmtKind): View {
    Configure(View(DepthOf(ctx), if ctx.None? then Initial else Permits(ctx.value, id), Unknown, None, None), ConfigOf(kind))
  }

  // The configured scope of a function; it does not depend on what is around it.
  function FunctionView(body: Option<StmtId>): View {
    View(0, Initial, OneWay, body, None)
  }

  // What a statement itself adds: its depth, if its scope is deeper than the one around it.
  function Own(ctx: Context, v: View): Count {
    if v.depth > DepthOf(ctx) then Count(v.depth, 1) else NONE
  }

  /** What a node adds to the function on top of the stack. A nested function of
      bumpiness B and S statements at depth D adds B + S * D. */
  function Total(n: Node, ctx: Context): Count
    decreases n, 1
  {
    match n
    case Stmt(id, kind, children) =>
      var v := StmtView(ctx, id, kind);
      var inner, own := TotalAll(children, Some(v)), Own(ctx, v);
      Count(inner.bumpiness + own.bumpiness, inner.statements + own.statements)
    case FunctionDecl(astNodeId, body, children) =>
      var c := TotalAll(children, Some(FunctionView(body)));
      if astNodeId == 0 then NONE else Count(c.bumpiness + c.statements * DepthOf(ctx), c.statements)
    case OtherDecl(children) => TotalAll(children, ctx)
  }

  function TotalAll(ns: seq<Node>, ctx: Context): Count
    decreases ns, 0
  {
    if ns == [] then NONE
    else
      var c, rest := Total(ns[0], ctx), TotalAll(ns[1..], ctx);
      Count(c.bumpiness + rest.bumpiness, c.statements + rest.statements)
  }

  // The record of a function.
  function Row(astNodeId: nat, body: Option<StmtId>, children: seq<Node>): CppFunction {
    var c := TotalAll(children, Some(FunctionView(body)));
    CppFunction(astNodeId, c.bumpiness, c.statements)
  }

  // The records of all functions in a tree, inner functions first.
  function Rows(n: Node): seq<CppFunction>
    decreases n, 1
  {
    match n
    case FunctionDecl(astNodeId, body, children) =>
      RowsAll(children) + (if astNodeId == 0 then [] else [Row(astNodeId, body, children)])
    case Stmt(_, _, children) => RowsAll(children)
    case OtherDecl(children) => RowsAll(children)
  }

  function RowsAll(ns: seq<Node>): seq<CppFunction>
    decreases ns, 0
  {
    if ns == [] then [] else Rows(ns[0]) + RowsAll(ns[1..])
  }

  function Credited(fs: seq<CppFunction>, c: Count): seq<CppFunction> {
    if fs == [] then []
    else
      var f := fs[|fs| - 1];
      fs[..|fs| - 1] + [f.(bumpiness := f.bumpiness + c.bumpiness, statementCount := f.statementCount + c.statements)]
  }

  // During a traversal the top scope may become configured; nothing else changes.
  ghost predicate Kept(before: seq<View>, after: seq<View>) {
    after == before || after == Settle(before)
  }

  lemma SettleTwice(vs: seq<View>)
    ensures TopOf(Settle(vs)) == TopOf(vs) && Settle(Settle(vs)) == Settle(vs)
  {
  }

  lemma KeptTop(before: seq<View>, after: seq<View>)
    requires Kept(before, after)
    ensures TopOf(after) == TopOf(before) && Settle(after) == Settle(before)
  {
    SettleTwice(before);
  }

  lemma KeptTwice(vs: seq<View>, ws: seq<View>, us: seq<View>)
    requires Kept(vs, ws) && Kept(ws, us)
    ensures Kept(vs, us)
  {
    SettleTwice(vs);
  }

  lemma CreditedTwice(fs: seq<CppFunction>, a: Count, b: Count)
    ensures Credited(Credited(fs, a), b) == Credited(fs, Count(a.bumpiness + b.bumpiness, a.statements + b.statements))
    ensures Credited(fs, NONE) == fs
  {
  }

  lemma StmtTotal(n: Node, ctx: Context, fs: seq<CppFunction>)
    requires n.Stmt?
    ensures var v := StmtView(ctx, n.id, n.kind);
      Credited(Credited(fs, TotalAll(n.children, Some(v))), Own(ctx, v)) == Credited(fs, Total(n, ctx))
  {
    var v := StmtView(ctx, n.id, n.kind);
    CreditedTwice(fs, TotalAll(n.children, Some(v)), Own(ctx, v));
  }

  lemma AllNext(ns: seq<Node>, ctx: Context, fs: seq<CppFunction>, fs': seq<CppFunction>,
                rows: seq<CppFunction>, rows': seq<CppFunction>)
    requires ns != [] && fs' == Credited(fs, Total(ns[0], ctx)) && rows' == rows + Rows(ns[0])
    ensures Credited(fs', TotalAll(ns[1..], ctx)) == Credited(fs, TotalAll(ns, ctx))
    ensures rows' + RowsAll(ns[1..]) == rows + RowsAll(ns)
  {
    CreditedTwice(fs, Total(ns[0], ctx), TotalAll(ns[1..], ctx));
  }

  // The views while the children of a statement are traversed.
  ghost function Opened(vs: seq<View>, id: StmtId, kind: StmtKind): seq<View> {
    var ws := Settle(vs) + [Fresh(vs, Some(id))];
    if kind.OtherStmt? then ws else Top(ws, ConfigOf(kind))
  }

  lemma OpenedTop(vs: seq<View>, id: StmtId, kind: StmtKind)
    ensures TopOf(Opened(vs, id, kind)) == Some(StmtView(TopOf(vs), id, kind))
    ensures Settle(Opened(vs, id, kind)) == Settle(vs) + [StmtView(TopOf(vs), id, kind)]
  {
    FreshView(vs, id);
    TopOfPushed(Settle(vs), Fresh(vs, Some(id)), ConfigOf(kind));
  }

  lemma FreshView(vs: seq<View>, id: StmtId)
    ensures var ctx := TopOf(vs);
      Fresh(vs, Some(id)) == View(DepthOf(ctx), if ctx.None? then Initial else Permits(ctx.value, id), Unknown, None, None)
  {
  }

  lemma TopOfPushed(vs: seq<View>, v: View, c: Config)
    requires v.kind.Unknown?
    ensures Top(vs + [v], c) == vs + [Configure(v, c)]
    ensures TopOf(vs + [Configure(v, c)]) == Some(Configure(v, c)) && Settle(vs + [Configure(v, c)]) == vs + [Configure(v, c)]
    ensures TopOf(vs + [v]) == Some(Configure(v, Statement)) && Settle(vs + [v]) == vs + [Configure(v, Statement)]
  {
  }

  lemma OwnIs(vs: seq<View>, v: View)
    ensures Own(TopOf(vs), v) == if v.depth > PrevDepth(Settle(vs) + [v]) then Count(v.depth, 1) else NONE
  {
  }

  // The function on top has been taken off: recorded, and folded into the one below it.
  ghost predicate TakenOff(stack: seq<CppFunction>, functions: seq<CppFunction>, depth: nat,
                         stack': seq<CppFunction>, functions': seq<CppFunction>)
    requires stack != []
  {
    var cur := stack[|stack| - 1];
    var outer := stack[..|stack| - 1];
    if cur.astNodeId == 0 then stack' == outer && functions' == functions
    else
      && stack' == Credited(outer, Count(cur.bumpiness + cur.statementCount * depth, cur.statementCount))
      && functions' == functions + [cur]
  }

  lemma TakenOffAs(fs: seq<CppFunction>, id: nat, c: Count, depth: nat, rows: seq<CppFunction>,
                   fs': seq<CppFunction>, rows': seq<CppFunction>)
    requires TakenOff(fs + [CppFunction(id, c.bumpiness, c.statements)], rows, depth, fs', rows')
    ensures fs' == Credited(fs, if id == 0 then NONE else Count(c.bumpiness + c.statements * depth, c.statements))
    ensures rows' == rows + (if id == 0 then [] else [CppFunction(id, c.bumpiness, c.statements)])
  {
    var stack := fs + [CppFunction(id, c.bumpiness, c.statements)];
    assert stack[..|stack| - 1] == fs;
    CreditedTwice(fs, NONE, NONE);
  }

  lemma CreditedNew(fs: seq<CppFunction>, id: nat, c: Count)
    ensures Credited(fs + [CppFunction(id, 0, 0)], c) == fs + [CppFunction(id, c.bumpiness, c.statements)]
  {
  }

  lemma FunctionTotal(n: Node, fs: seq<CppFunction>, ctx: Context, rows: seq<CppFunction>,
                      fs': seq<CppFunction>, rows': seq<CppFunction>, fs'': seq<CppFunction>, rows'': seq<CppFunction>)
    requires n.FunctionDecl?
    requires fs' == Credited(fs + [CppFunction(n.astNodeId, 0, 0)], TotalAll(n.children, Some(FunctionView(n.body))))
    requires rows' == rows + RowsAll(n.children)
    requires fs' != [] && TakenOff(fs', rows', DepthOf(ctx), fs'', rows'')
    ensures fs'' == Credited(fs, Total(n, ctx)) && rows'' == rows + Rows(n)
  {
    var c := TotalAll(n.children, Some(FunctionView(n.body)));
    CreditedNew(fs, n.astNodeId, c);
    TakenOffAs(fs, n.astNodeId, c, DepthOf(ctx), rows', fs'', rows'');
  }

  class Visitor {
    var functionStack: seq<CppFunction>
    var functions: seq<CppFunction>
    const stmtStack: StatementStack

    constructor ()
      ensures functionStack == [] && functions == []
      ensures fresh(stmtStack) && stmtStack.Valid() && stmtStack.views == []
    {
      functionStack, functions := [], [];
      stmtStack := new StatementStack();
    }

    // A function on the function stack has a scope on the statement stack.
    ghost predicate Valid()
      reads this, stmtStack, stmtStack.scopes
    {
      stmtStack.Valid() && (functionStack != [] ==> stmtStack.views != [])
    }

    method CountBumpiness(scope: StatementScope)
      requires stmtStack.Valid() && stmtStack.top == scope && scope.stack == stmtStack
      modifies this`functionStack
      ensures functionStack == Credited(old(functionStack),
        var vs := stmtStack.views;
        if vs[|vs| - 1].depth > PrevDepth(vs) then Count(vs[|vs| - 1].depth, 1) else NONE)
    {
      assert scope == stmtStack.scopes[|stmtStack.scopes| - 1];
      if functionStack != [] && scope.IsReal() {
        functionStack := Credited(functionStack, Count(scope.depth, 1));
      }
    }

    method TraverseStmt(n: Node)
      requires n.Stmt? && Valid()
      modifies this, stmtStack, stmtStack.scopes
      ensures Valid() && stmtStack.scopes == old(stmtStack.scopes)
      ensures Kept(old(stmtStack.views), stmtStack.views)
      ensures functionStack == Credited(old(functionStack), Total(n, TopOf(old(stmtStack.views))))
      ensures functions == old(functions) + Rows(n)
      decreases n, 1
    {
      ghost var vs, fs := stmtStack.views, functionStack;
      var scope := TraverseChildren(n);
      CloseStmt(scope, vs, StmtView(TopOf(vs), n.id, n.kind));
      StmtTotal(n, TopOf(vs), fs);
    }

    // The children, in the scope of the statement, which stays on the stack.
    method TraverseChildren(n: Node) returns (scope: StatementScope)
      requires n.Stmt? && Valid()
      modifies this, stmtStack, stmtStack.scopes
      ensures Valid() && fresh(scope) && scope.stack == stmtStack
      ensures stmtStack.scopes == old(stmtStack.scopes) + [scope]
      ensures var v := StmtView(TopOf(old(stmtStack.views)), n.id, n.kind);
        && Settle(stmtStack.views) == Settle(old(stmtStack.views)) + [v]
        && functionStack == Credited(old(functionStack), TotalAll(n.children, Some(v)))
      ensures functions == old(functions) + RowsAll(n.children)
      decreases n, 0
    {
      ghost var vs := stmtStack.views;
      scope := OpenStmt(n.id, n.kind);
      OpenedTop(vs, n.id, n.kind);
      TraverseAll(n.children);
      KeptTop(Opened(vs, n.id, n.kind), stmtStack.views);
    }

    // Pushes the scope of a statement; special statements are configured at once.
    method OpenStmt(id: StmtId, kind: StmtKind) returns (scope: StatementScope)
      requires stmtStack.Valid()
      modifies stmtStack, stmtStack.scopes
      ensures stmtStack.Valid() && fresh(scope) && scope.stack == stmtStack
      ensures stmtStack.scopes == old(stmtStack.scopes) + [scope]
      ensures stmtStack.views == Opened(old(stmtStack.views), id, kind)
    {
      scope := new StatementScope(stmtStack, Some(id));
      ConfigureScope(kind);
    }

    // The Traverse functions of the special statements configure the scope first.
    method ConfigureScope(kind: StmtKind)
      requires stmtStack.top != null && stmtStack.top.stack == stmtStack && stmtStack.top.CanConfigure()
      modifies stmtStack.top, stmtStack`views
      ensures stmtStack.Valid()
      ensures stmtStack.views == if kind.OtherStmt? then old(stmtStack.views) else Top(old(stmtStack.views), ConfigOf(kind))
    {
      match kind
      case CompoundStmt => stmtStack.top.MakeCompound();
      case IfStmt(t, e) => stmtStack.top.MakeTwoWay(t, e);
      case BodyStmt(b) => stmtStack.top.MakeOneWay(b);
      case LabelStmt => stmtStack.top.MakeTransparent();
      case OtherStmt =>
    }

    // Statements not configured so far count as plain ones.
    method CloseStmt(scope: StatementScope, ghost vs: seq<View>, ghost v: View)
      requires stmtStack.Valid() && stmtStack.top == scope && scope.stack == stmtStack
      requires Settle(stmtStack.views) == Settle(vs) + [v]
      modifies this`functionStack, stmtStack, scope
      ensures stmtStack.Valid()
      ensures stmtStack.scopes == old(stmtStack.scopes)[..|old(stmtStack.scopes)| - 1]
      ensures stmtStack.views == Settle(vs)
      ensures functionStack == Credited(old(functionStack), Own(TopOf(vs), v))
    {
      SettleScope(scope, vs, v);
      OwnIs(vs, v);
      CountBumpiness(scope);
      scope.Destroy();
    }

    method SettleScope(scope: StatementScope, ghost vs: seq<View>, ghost v: View)
      requires stmtStack.Valid() && stmtStack.top == scope && scope.stack == stmtStack
      requires Settle(stmtStack.views) == Settle(vs) + [v]
      modifies stmtStack, scope
      ensures stmtStack.Valid() && stmtStack.top == scope && stmtStack.scopes == old(stmtStack.scopes)
      ensures stmtStack.views == Settle(vs) + [v]
    {
      assert scope == stmtStack.scopes[|stmtStack.scopes| - 1];
      scope.EnsureConfigured();
    }

    method TraverseAll(ns: seq<Node>)
      requires Valid()
      modifies this, stmtStack, stmtStack.scopes
      ensures Valid() && stmtStack.scopes == old(stmtStack.scopes)
      ensures Kept(old(stmtStack.views), stmtStack.views)
      ensures functionStack == Credited(old(functionStack), TotalAll(ns, TopOf(old(stmtStack.views))))
      ensures functions == old(functions) + RowsAll(ns)
      decreases ns, 0
    {
      if ns == [] {
        CreditedTwice(functionStack, NONE, NONE);
      } else {
        ghost var vs, fs := stmtStack.views, functionStack;
        Traverse(ns[0]);
        ghost var vs', fs', rows := stmtStack.views, functionStack, functions;
        KeptTop(vs, vs');
        TraverseAll(ns[1..]);
        KeptTwice(vs, vs', stmtStack.views);
        AllNext(ns, TopOf(vs), fs, fs', old(functions), rows);
      }
    }

    method Traverse(n: Node)
      requires Valid()
      modifies this, stmtStack, stmtStack.scopes
      ensures Valid() && stmtStack.scopes == old(stmtStack.scopes)
      ensures Kept(old(stmtStack.views), stmtStack.views)
      ensures functionStack == Credited(old(functionStack), Total(n, TopOf(old(stmtStack.views))))
      ensures functions == old(functions) + Rows(n)
      decreases n, 2
    {
      match n
      case Stmt(_, _, _) => TraverseStmt(n);
      case FunctionDecl(_, _, _) => TraverseFunctionDecl(n);
      case OtherDecl(children) => TraverseAll(children);
    }

    method TraverseFunctionDecl(n: Node)
      requires n.FunctionDecl? && Valid()
      modifies this, stmtStack, stmtStack.scopes
      ensures Valid() && stmtStack.scopes == old(stmtStack.scopes)
      ensures Kept(old(stmtStack.views), stmtStack.views)
      ensures functionStack == Credited(old(functionStack), Total(n, TopOf(old(stmtStack.views))))
      ensures functions == old(functions) + Rows(n)
      decreases n, 1
    {
      ghost var fs, vs := functionStack, stmtStack.views;
      var scope := EnterFunction(n.astNodeId, n.body);
      TraverseAll(n.children);
      ghost var fs', rows := functionStack, functions;
      LeaveFunction(scope);
      FunctionTotal(n, fs, TopOf(vs), old(functions), fs', rows, functionStack, functions);
      SettleTwice(vs);
    }

    // StatementScope and FunctionScope are destroyed, in this order.
    method LeaveFunction(scope: StatementScope)
      requires stmtStack.Valid() && scope.stack == stmtStack && stmtStack.top == scope
      requires functionStack != [] && (|functionStack| > 1 ==> |stmtStack.views| > 1)
      modifies this, stmtStack, stmtStack.scopes
      ensures Valid()
      ensures stmtStack.scopes == old(stmtStack.scopes)[..|old(stmtStack.scopes)| - 1]
      ensures stmtStack.views == old(stmtStack.views)[..|old(stmtStack.views)| - 1]
      ensures TakenOff(old(functionStack), old(functions), PrevDepth(old(stmtStack.views)), functionStack, functions)
    {
      ghost var ws := stmtStack.views;
      scope.Destroy();
      assert forall i :: 0 <= i < |ws| - 1 ==> !ws[i].kind.Unknown?;
      CloseFunctionScope();
    }

    // FunctionScope and StatementScope are constructed; VisitFunctionDecl sets the
    // record of a function that is not in the cache yet.
    method EnterFunction(astNodeId: nat, body: Option<StmtId>) returns (scope: StatementScope)
      requires stmtStack.Valid()
      modifies this`functionStack, stmtStack, stmtStack.scopes
      ensures stmtStack.Valid() && fresh(scope) && scope.stack == stmtStack
      ensures stmtStack.scopes == old(stmtStack.scopes) + [scope]
      ensures stmtStack.views == Settle(old(stmtStack.views)) + [FunctionView(body)]
      ensures functionStack == old(functionStack) + [CppFunction(astNodeId, 0, 0)]
    {
      functionStack := functionStack + [CppFunction(0, 0, 0)];
      scope := PushFunction(body);
      if astNodeId != 0 {
        functionStack := functionStack[..|functionStack| - 1] + [CppFunction(astNodeId, 0, 0)];
      }
    }

    method PushFunction(body: Option<StmtId>) returns (scope: StatementScope)
      requires stmtStack.Valid()
      modifies stmtStack, stmtStack.scopes
      ensures stmtStack.Valid() && fresh(scope) && scope.stack == stmtStack
      ensures stmtStack.scopes == old(stmtStack.scopes) + [scope]
      ensures stmtStack.views == Settle(old(stmtStack.views)) + [FunctionView(body)]
    {
      scope := new StatementScope(stmtStack, None);
      scope.MakeFunction(body);
    }

    // The destructor of FunctionScope.
    method CloseFunctionScope()
      requires stmtStack.Valid() && functionStack != [] && (|functionStack| > 1 ==> stmtStack.views != [])
      modifies this, stmtStack, stmtStack.scopes
      ensures Valid() && stmtStack.scopes == old(stmtStack.scopes)
      ensures Kept(old(stmtStack.views), stmtStack.views)
      ensures TakenOff(old(functionStack), old(functions), DepthOf(TopOf(old(stmtStack.views))), functionStack, functions)
    {
      var cur := functionStack[|functionStack| - 1];
      if cur.astNodeId != 0 {
        functions := functions + [cur];
      }
      functionStack := functionStack[..|functionStack| - 1];
      if cur.astNodeId != 0 && functionStack != [] {
        var depth := TopValidDepth();
        functionStack := Credited(functionStack, Count(cur.bumpiness + cur.statementCount * depth, cur.statementCount));
      }
    }

    // The configured depth of the topmost scope that is not invalid.
    method TopValidDepth() returns (depth: nat)
      requires stmtStack.Valid() && stmtStack.views != []
      modifies stmtStack, stmtStack.scopes
      ensures stmtStack.Valid() && stmtStack.scopes == old(stmtStack.scopes)
      ensures Kept(old(stmtStack.views), stmtStack.views)
      ensures depth == DepthOf(TopOf(old(stmtStack.views)))
    {
      var scope := stmtStack.TopValid();
      scope.EnsureConfigured();
      depth := scope.depth;
    }
  }
}
