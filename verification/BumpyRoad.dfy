/** What the nesting metric means: folding a finished function into the one
    around it equals counting its statements in place, and the sum of depths
    equals counting, for each statement, the statements nested in it. */
module BumpyRoad {
  import opened NestedScope
  import opened ClangAstVisitor
  import opened Wrappers

  /** The plain recount: the statements of a nested function are counted with the
      depth of the place where the function is nested as start depth. */
  function Recount(n: Node, ctx: Context): Count
    decreases n, 1
  {
    match n
    case Stmt(id, kind, children) =>
      var v := StmtView(ctx, id, kind);
      var inner, own := RecountAll(children, Some(v)), Own(ctx, v);
      Count(inner.bumpiness + own.bumpiness, inner.statements + own.statements)
    case FunctionDecl(astNodeId, body, children) =>
      if astNodeId == 0 then NONE else RecountAll(children, Some(StartingAt(body, DepthOf(ctx))))
    case OtherDecl(children) => RecountAll(children, ctx)
  }

  function RecountAll(ns: seq<Node>, ctx: Context): Count
    decreases ns, 0
  {
    if ns == [] then NONE
    else
      var c, rest := Recount(ns[0], ctx), RecountAll(ns[1..], ctx);
      Count(c.bumpiness + rest.bumpiness, c.statements + rest.statements)
  }

  function StartingAt(body: Option<StmtId>, depth: nat): View {
    FunctionView(body).(depth := depth)
  }

  function Raised(v: View, d: nat): View {
    v.(depth := v.depth + d)
  }

  lemma RaisedStmt(v: View, d: nat, id: StmtId, kind: StmtKind)
    ensures StmtView(Some(Raised(v, d)), id, kind) == Raised(StmtView(Some(v), id, kind), d)
  {
  }

  // The same statements, all of them d deeper.
  predicate IsRaised(c: Count, d: nat, r: Count) {
    r.bumpiness == c.bumpiness + c.statements * d && r.statements == c.statements
  }

  lemma RaisedPlus(a: Count, b: Count, d: nat, r: Count, t: Count)
    requires IsRaised(a, d, r) && IsRaised(b, d, t)
    ensures IsRaised(Count(a.bumpiness + b.bumpiness, a.statements + b.statements), d,
      Count(r.bumpiness + t.bumpiness, r.statements + t.statements))
  {
    Together(a.statements, b.statements, d);
  }

  lemma Together(s: nat, t: nat, d: nat)
    ensures (s + t) * d == s * d + t * d
  {
  }

  lemma RaisedOwn(v: View, w: View, d: nat)
    ensures IsRaised(Own(Some(v), w), d, Own(Some(Raised(v, d)), Raised(w, d)))
  {
  }

  // Raising the start depth by D adds D for each statement.
  lemma {:induction false} RaisedRecount(n: Node, v: View, d: nat)
    ensures IsRaised(Recount(n, Some(v)), d, Recount(n, Some(Raised(v, d))))
    decreases n, 1
  {
    match n
    case Stmt(id, kind, children) =>
      var w := StmtView(Some(v), id, kind);
      RaisedStmt(v, d, id, kind);
      RaisedRecountAll(children, w, d);
      RaisedOwn(v, w, d);
      RaisedPlus(RecountAll(children, Some(w)), Own(Some(v), w), d,
        RecountAll(children, Some(Raised(w, d))), Own(Some(Raised(v, d)), Raised(w, d)));
    case FunctionDecl(astNodeId, body, children) =>
      if astNodeId != 0 {
        RaisedRecountAll(children, StartingAt(body, v.depth), d);
      }
    case OtherDecl(children) =>
      RaisedRecountAll(children, v, d);
  }

  lemma {:induction false} RaisedRecountAll(ns: seq<Node>, v: View, d: nat)
    ensures IsRaised(RecountAll(ns, Some(v)), d, RecountAll(ns, Some(Raised(v, d))))
    decreases ns, 0
  {
    if ns != [] {
      RaisedRecount(ns[0], v, d);
      RaisedRecountAll(ns[1..], v, d);
      RaisedPlus(Recount(ns[0], Some(v)), RecountAll(ns[1..], Some(v)), d,
        Recount(ns[0], Some(Raised(v, d))), RecountAll(ns[1..], Some(Raised(v, d))));
    }
  }

  /** The folding formula B + S * D is exact at every nesting of functions. */
  lemma {:induction false} TotalIsRecount(n: Node, ctx: Context)
    ensures Total(n, ctx) == Recount(n, ctx)
    decreases n, 1
  {
    match n
    case Stmt(id, kind, children) =>
      TotalAllIsRecount(children, Some(StmtView(ctx, id, kind)));
    case FunctionDecl(astNodeId, body, children) =>
      TotalAllIsRecount(children, Some(FunctionView(body)));
      FunctionIsRecount(astNodeId, body, children, ctx);
    case OtherDecl(children) =>
      TotalAllIsRecount(children, ctx);
  }

  lemma RaisedFunction(body: Option<StmtId>, d: nat)
    ensures Raised(FunctionView(body), d) == StartingAt(body, d)
  {
  }

  lemma FunctionRecountIs(body: Option<StmtId>, children: seq<Node>, d: nat)
    ensures IsRaised(RecountAll(children, Some(FunctionView(body))), d, RecountAll(children, Some(StartingAt(body, d))))
  {
    RaisedFunction(body, d);
    RaisedRecountAll(children, FunctionView(body), d);
  }

  lemma FunctionIsRecount(astNodeId: nat, body: Option<StmtId>, children: seq<Node>, ctx: Context)
    requires TotalAll(children, Some(FunctionView(body))) == RecountAll(children, Some(FunctionView(body)))
    ensures Total(FunctionDecl(astNodeId, body, children), ctx) == Recount(FunctionDecl(astNodeId, body, children), ctx)
  {
    FunctionRecountIs(body, children, DepthOf(ctx));
  }

  lemma {:induction false} TotalAllIsRecount(ns: seq<Node>, ctx: Context)
    ensures TotalAll(ns, ctx) == RecountAll(ns, ctx)
    decreases ns, 0
  {
    if ns != [] {
      TotalIsRecount(ns[0], ctx);
      TotalAllIsRecount(ns[1..], ctx);
    }
  }

  // ----- which statements count, on the tree alone -----

  /** Where a statement stands: outside of all functions, in a place where nothing
      counts, or right inside a statement of some kind. The body of a function is
      in the same place as the body of a loop. */
  datatype Place = Outside | Dead | In(kind: StmtKind)

  predicate IsBlock(k: StmtKind) {
    k.CompoundStmt? || k.LabelStmt?
  }

  // Blocks hold statements; the other special statements only their bodies.
  predicate Takes(k: StmtKind, id: StmtId) {
    match k
    case IfStmt(t, e) => t == Some(id) || e == Some(id)
    case BodyStmt(b) => b == Some(id)
    case OtherStmt => false
    case _ => true
  }

  predicate Alive(place: Place, id: StmtId) {
    place.Outside? || (place.In? && Takes(place.kind, id))
  }

  /** A living statement counts, unless it is a label or the block that is expected
      as a body: a block counts in blocks only. */
  predicate Counts(place: Place, id: StmtId, kind: StmtKind) {
    && Alive(place, id)
    && !kind.LabelStmt?
    && (kind.CompoundStmt? ==> place.In? && IsBlock(place.kind))
  }

  function Inside(place: Place, id: StmtId, kind: StmtKind): Place {
    if Alive(place, id) then In(kind) else Dead
  }

  // The number of statements that count.
  function Statements(n: Node, place: Place): nat
    decreases n, 1
  {
    match n
    case Stmt(id, kind, children) =>
      StatementsAll(children, Inside(place, id, kind)) + (if Counts(place, id, kind) then 1 else 0)
    case FunctionDecl(astNodeId, body, children) =>
      if astNodeId == 0 then 0 else StatementsAll(children, In(BodyStmt(body)))
    case OtherDecl(children) => StatementsAll(children, place)
  }

  function StatementsAll(ns: seq<Node>, place: Place): nat
    decreases ns, 0
  {
    if ns == [] then 0 else Statements(ns[0], place) + StatementsAll(ns[1..], place)
  }

  /** For each statement that counts, the number of statements that count in it,
      itself included, also those of functions nested in it. */
  function Nesting(n: Node, place: Place): nat
    decreases n, 1
  {
    match n
    case Stmt(id, kind, children) =>
      NestingAll(children, Inside(place, id, kind)) + (if Counts(place, id, kind) then Statements(n, place) else 0)
    case FunctionDecl(astNodeId, body, children) =>
      if astNodeId == 0 then 0 else NestingAll(children, In(BodyStmt(body)))
    case OtherDecl(children) => NestingAll(children, place)
  }

  function NestingAll(ns: seq<Node>, place: Place): nat
    decreases ns, 0
  {
    if ns == [] then 0 else Nesting(ns[0], place) + NestingAll(ns[1..], place)
  }

  function Permitted(ctx: Context, id: StmtId): State {
    if ctx.None? then Initial else Permits(ctx.value, id)
  }

  // What a scope answers in a place.
  function Answer(place: Place, id: StmtId): State {
    if !Alive(place, id) then Invalid
    else if place.Outside? then Initial
    else if IsBlock(place.kind) then Standalone
    else Expected
  }

  // The scope on top answers as the place does.
  ghost predicate Mirrors(ctx: Context, place: Place) {
    forall id: StmtId :: Permitted(ctx, id) == Answer(place, id)
  }

  lemma FunctionMirrors(body: Option<StmtId>, depth: nat)
    ensures Mirrors(Some(StartingAt(body, depth)), In(BodyStmt(body)))
  {
  }

  /** A scope adds to the count exactly when its statement counts; it is one deeper
      then, and the answers inside it are those of the place. */
  lemma CountsIff(ctx: Context, place: Place, id: StmtId, kind: StmtKind)
    requires Mirrors(ctx, place)
    ensures var v := StmtView(ctx, id, kind);
      && (Own(ctx, v) != NONE <==> Counts(place, id, kind))
      && v.depth == DepthOf(ctx) + (if Counts(place, id, kind) then 1 else 0)
      && Mirrors(Some(v), Inside(place, id, kind))
  {
    assert Permitted(ctx, id) == Answer(place, id);
  }

  // The depths of the statements that count, summed up; d is that of the place.
  function Depths(n: Node, place: Place, d: nat): nat
    decreases n, 1
  {
    match n
    case Stmt(id, kind, children) =>
      var own := if Counts(place, id, kind) then d + 1 else 0;
      DepthsAll(children, Inside(place, id, kind), if Counts(place, id, kind) then d + 1 else d) + own
    case FunctionDecl(astNodeId, body, children) =>
      if astNodeId == 0 then 0 else DepthsAll(children, In(BodyStmt(body)), d)
    case OtherDecl(children) => DepthsAll(children, place, d)
  }

  function DepthsAll(ns: seq<Node>, place: Place, d: nat): nat
    decreases ns, 0
  {
    if ns == [] then 0 else Depths(ns[0], place, d) + DepthsAll(ns[1..], place, d)
  }

  lemma StmtDepths(id: StmtId, kind: StmtKind, children: seq<Node>, ctx: Context, place: Place)
    requires Mirrors(ctx, place)
    requires var v, inside := StmtView(ctx, id, kind), Inside(place, id, kind);
      RecountAll(children, Some(v)) == Count(DepthsAll(children, inside, v.depth), StatementsAll(children, inside))
    ensures var n := Stmt(id, kind, children);
      Recount(n, ctx) == Count(Depths(n, place, DepthOf(ctx)), Statements(n, place))
  {
    CountsIff(ctx, place, id, kind);
  }

  // The recount, on the tree alone.
  lemma {:induction false} RecountIsDepths(n: Node, ctx: Context, place: Place)
    requires Mirrors(ctx, place)
    ensures Recount(n, ctx) == Count(Depths(n, place, DepthOf(ctx)), Statements(n, place))
    decreases n, 1
  {
    match n
    case Stmt(id, kind, children) =>
      CountsIff(ctx, place, id, kind);
      RecountAllIsDepths(children, Some(StmtView(ctx, id, kind)), Inside(place, id, kind));
      StmtDepths(id, kind, children, ctx, place);
    case FunctionDecl(astNodeId, body, children) =>
      if astNodeId != 0 {
        FunctionMirrors(body, DepthOf(ctx));
        RecountAllIsDepths(children, Some(StartingAt(body, DepthOf(ctx))), In(BodyStmt(body)));
      }
    case OtherDecl(children) =>
      RecountAllIsDepths(children, ctx, place);
  }

  lemma {:induction false} RecountAllIsDepths(ns: seq<Node>, ctx: Context, place: Place)
    requires Mirrors(ctx, place)
    ensures RecountAll(ns, ctx) == Count(DepthsAll(ns, place, DepthOf(ctx)), StatementsAll(ns, place))
    decreases ns, 0
  {
    if ns != [] {
      RecountIsDepths(ns[0], ctx, place);
      RecountAllIsDepths(ns[1..], ctx, place);
    }
  }

  // d for each of s statements, and one more for each.
  lemma OneDeeper(s: nat, d: nat)
    ensures s * (d + 1) + (d + 1) == s + 1 + (s + 1) * d
  {
  }

  // A statement that counts is in every pair with one that counts inside it.
  lemma {:induction false} DepthsAreNesting(n: Node, place: Place, d: nat)
    ensures Depths(n, place, d) == Nesting(n, place) + Statements(n, place) * d
    decreases n, 1
  {
    match n
    case Stmt(id, kind, children) =>
      var inside, counts := Inside(place, id, kind), Counts(place, id, kind);
      DepthsAllAreNesting(children, inside, if counts then d + 1 else d);
      OneDeeper(StatementsAll(children, inside), d);
    case FunctionDecl(astNodeId, body, children) =>
      DepthsAllAreNesting(children, In(BodyStmt(body)), d);
    case OtherDecl(children) =>
      DepthsAllAreNesting(children, place, d);
  }

  lemma {:induction false} DepthsAllAreNesting(ns: seq<Node>, place: Place, d: nat)
    ensures DepthsAll(ns, place, d) == NestingAll(ns, place) + StatementsAll(ns, place) * d
    decreases ns, 0
  {
    if ns != [] {
      DepthsAreNesting(ns[0], place, d);
      DepthsAllAreNesting(ns[1..], place, d);
      Together(Statements(ns[0], place), StatementsAll(ns[1..], place), d);
    }
  }

  /** The sum of depths is the number of nested pairs of statements that count, and
      the start depth for each statement. */
  lemma RecountIsNesting(n: Node, ctx: Context, place: Place)
    requires Mirrors(ctx, place)
    ensures IsRaised(Count(Nesting(n, place), Statements(n, place)), DepthOf(ctx), Recount(n, ctx))
  {
    RecountIsDepths(n, ctx, place);
    DepthsAreNesting(n, place, DepthOf(ctx));
  }

  /** The record of a function: its statement count is the number of statements that
      count, its bumpiness the number of pairs of such statements one of which is
      nested in the other or is the other. */
  lemma RowIsNesting(astNodeId: nat, body: Option<StmtId>, children: seq<Node>)
    ensures var row := Row(astNodeId, body, children);
      && row.bumpiness == NestingAll(children, In(BodyStmt(body)))
      && row.statementCount == StatementsAll(children, In(BodyStmt(body)))
  {
    TotalAllIsRecount(children, Some(FunctionView(body)));
    FunctionMirrors(body, 0);
    assert StartingAt(body, 0) == FunctionView(body);
    RecountAllIsDepths(children, Some(FunctionView(body)), In(BodyStmt(body)));
    DepthsAllAreNesting(children, In(BodyStmt(body)), 0);
  }

  // No function in the tree.
  predicate FunctionFree(n: Node)
    decreases n, 1
  {
    match n
    case FunctionDecl(_, _, _) => false
    case Stmt(_, _, children) => FunctionFreeAll(children)
    case OtherDecl(children) => FunctionFreeAll(children)
  }

  predicate FunctionFreeAll(ns: seq<Node>)
    decreases ns, 0
  {
    ns == [] || (FunctionFree(ns[0]) && FunctionFreeAll(ns[1..]))
  }

  lemma InvalidStmt(v: View, id: StmtId, kind: StmtKind)
    requires v.kind.Closed? || v.state.Invalid?
    ensures StmtView(Some(v), id, kind).state.Invalid? && Own(Some(v), StmtView(Some(v), id, kind)) == NONE
  {
  }

  /** Nothing inside a plain statement counts, at any depth, except for the
      functions nested in it. */
  lemma {:induction false} ExpressionsDoNotCount(n: Node, v: View)
    requires v.kind.Closed? || v.state.Invalid?
    requires FunctionFree(n)
    ensures Total(n, Some(v)) == NONE
    decreases n, 1
  {
    match n
    case Stmt(id, kind, children) =>
      InvalidStmt(v, id, kind);
      ExpressionsDoNotCountAll(children, StmtView(Some(v), id, kind));
    case OtherDecl(children) =>
      ExpressionsDoNotCountAll(children, v);
  }

  lemma {:induction false} ExpressionsDoNotCountAll(ns: seq<Node>, v: View)
    requires v.kind.Closed? || v.state.Invalid?
    requires FunctionFreeAll(ns)
    ensures TotalAll(ns, Some(v)) == NONE
    decreases ns, 0
  {
    if ns != [] {
      ExpressionsDoNotCount(ns[0], v);
      ExpressionsDoNotCountAll(ns[1..], v);
    }
  }
}
