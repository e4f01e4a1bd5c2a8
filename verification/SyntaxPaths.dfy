/** What the nesting metric records, by places in the tree: a place is the list of
    child indices that leads to it. */
module SyntaxPaths {
  import opened NestedScope
  import opened ClangAstVisitor
  import opened BumpyRoad
  import opened Wrappers

  type Path = seq<nat>

  function ChildrenOf(n: Node): (c: seq<Node>)
    ensures forall i :: 0 <= i < |c| ==> c[i] < n
  {
    match n
    case Stmt(_, _, children) => children
    case FunctionDecl(_, _, children) => children
    case OtherDecl(children) => children
  }

  predicate IsPath(n: Node, p: Path)
    decreases |p|
  {
    p == [] || (p[0] < |ChildrenOf(n)| && IsPath(ChildrenOf(n)[p[0]], p[1..]))
  }

  function At(n: Node, p: Path): Node
    requires IsPath(n, p)
    decreases |p|
  {
    if p == [] then n else At(ChildrenOf(n)[p[0]], p[1..])
  }

  // The order in which the traversal leaves the places: from left to right, and
  // what is inside before what is around it.
  predicate LeftFirst(p: Path, q: Path) {
    if p == [] then false
    else if q == [] then true
    else p[0] < q[0] || (p[0] == q[0] && LeftFirst(p[1..], q[1..]))
  }

  predicate InOrder(ps: seq<Path>) {
    forall i, j :: 0 <= i < j < |ps| ==> LeftFirst(ps[i], ps[j])
  }

  lemma {:induction false} LeftFirstOnce(p: Path, q: Path)
    requires LeftFirst(p, q)
    ensures p != q && !LeftFirst(q, p)
    decreases |p|
  {
    if q != [] && p[0] == q[0] {
      LeftFirstOnce(p[1..], q[1..]);
      assert p == [p[0]] + p[1..] && q == [q[0]] + q[1..];
    }
  }

  // ----- the places of a tree with some property -----

  // Exactly the places p for which has(p) holds, each once, in the order of leaving.
  ghost predicate Lists(ps: seq<Path>, n: Node, has: Path -> bool) {
    InOrder(ps) && forall p :: p in ps <==> IsPath(n, p) && has(p)
  }

  // The same for the children from index k on.
  ghost predicate ListsFrom(ps: seq<Path>, n: Node, k: nat, has: Path -> bool) {
    InOrder(ps) && forall p :: p in ps <==> IsPath(n, p) && p != [] && p[0] >= k && has(p)
  }

  function Under(k: nat, ps: seq<Path>): (r: seq<Path>)
    ensures |r| == |ps|
  {
    seq(|ps|, i requires 0 <= i < |ps| => [k] + ps[i])
  }

  lemma UnderHas(k: nat, ps: seq<Path>, p: Path)
    ensures p in Under(k, ps) <==> p != [] && p[0] == k && p[1..] in ps
  {
    if p in Under(k, ps) {
      var i :| 0 <= i < |ps| && p == [k] + ps[i];
      assert p[1..] == ps[i];
    }
    if p != [] && p[0] == k && p[1..] in ps {
      var i :| 0 <= i < |ps| && p[1..] == ps[i];
      assert p == [k] + ps[i] == Under(k, ps)[i];
    }
  }

  lemma UnderInOrder(k: nat, ps: seq<Path>)
    requires InOrder(ps)
    ensures InOrder(Under(k, ps))
  {
    forall i, j | 0 <= i < j < |ps| ensures LeftFirst(Under(k, ps)[i], Under(k, ps)[j]) {
      assert ([k] + ps[i])[1..] == ps[i] && ([k] + ps[j])[1..] == ps[j];
    }
  }

  lemma InOrderAppend(ps: seq<Path>, qs: seq<Path>)
    requires InOrder(ps) && InOrder(qs) && forall p, q :: p in ps && q in qs ==> LeftFirst(p, q)
    ensures InOrder(ps + qs)
  {
  }

  lemma ListsChild(n: Node, k: nat, ps: seq<Path>, rest: seq<Path>, below: Path -> bool, has: Path -> bool)
    requires k < |ChildrenOf(n)| && Lists(ps, ChildrenOf(n)[k], below) && ListsFrom(rest, n, k + 1, has)
    requires forall p :: has([k] + p) == below(p)
    ensures ListsFrom(Under(k, ps) + rest, n, k, has)
  {
    UnderInOrder(k, ps);
    forall p, q | p in Under(k, ps) && q in rest ensures LeftFirst(p, q) {
      UnderHas(k, ps, p);
    }
    InOrderAppend(Under(k, ps), rest);
    forall p ensures p in Under(k, ps) + rest <==> IsPath(n, p) && p != [] && p[0] >= k && has(p) {
      UnderHas(k, ps, p);
      if p != [] && p[0] == k {
        assert p == [k] + p[1..] && has(p) == below(p[1..]);
      }
    }
  }

  lemma ListsSelf(n: Node, ps: seq<Path>, has: Path -> bool)
    requires ListsFrom(ps, n, 0, has)
    ensures Lists(ps + (if has([]) then [[]] else []), n, has)
  {
    if has([]) {
      InOrderAppend(ps, [[]]);
    }
  }

  // ----- recorded functions -----

  predicate Recorded(n: Node) {
    n.FunctionDecl? && n.astNodeId != 0
  }

  function RecordedAt(n: Node): Path -> bool {
    p => IsPath(n, p) && Recorded(At(n, p))
  }

  function RecordedPaths(n: Node): seq<Path>
    decreases n, 1
  {
    RecordedFrom(n, 0) + (if Recorded(n) then [[]] else [])
  }

  function RecordedFrom(n: Node, k: nat): seq<Path>
    requires k <= |ChildrenOf(n)|
    decreases n, 0, |ChildrenOf(n)| - k
  {
    if k == |ChildrenOf(n)| then [] else Under(k, RecordedPaths(ChildrenOf(n)[k])) + RecordedFrom(n, k + 1)
  }

  lemma {:induction false} RecordedAreListed(n: Node)
    ensures Lists(RecordedPaths(n), n, RecordedAt(n))
    decreases n, 1
  {
    RecordedFromAreListed(n, 0);
    ListsSelf(n, RecordedFrom(n, 0), RecordedAt(n));
  }

  lemma BelowChild(n: Node, k: nat)
    requires k < |ChildrenOf(n)|
    ensures forall p :: RecordedAt(n)([k] + p) == RecordedAt(ChildrenOf(n)[k])(p)
  {
    forall p ensures RecordedAt(n)([k] + p) == RecordedAt(ChildrenOf(n)[k])(p) {
      assert ([k] + p)[1..] == p;
    }
  }

  lemma {:induction false} RecordedFromAreListed(n: Node, k: nat)
    requires k <= |ChildrenOf(n)|
    ensures ListsFrom(RecordedFrom(n, k), n, k, RecordedAt(n))
    decreases n, 0, |ChildrenOf(n)| - k
  {
    if k < |ChildrenOf(n)| {
      RecordedAreListed(ChildrenOf(n)[k]);
      RecordedFromAreListed(n, k + 1);
      BelowChild(n, k);
      ListsChild(n, k, RecordedPaths(ChildrenOf(n)[k]), RecordedFrom(n, k + 1), RecordedAt(ChildrenOf(n)[k]), RecordedAt(n));
    }
  }

  function RowOf(n: Node): CppFunction
    requires n.FunctionDecl?
  {
    Row(n.astNodeId, n.body, n.children)
  }

  // The rows are those of the functions at some places.
  ghost predicate RowsAt(rows: seq<CppFunction>, n: Node, ps: seq<Path>) {
    |rows| == |ps| && forall i :: 0 <= i < |ps| ==> IsPath(n, ps[i]) && Recorded(At(n, ps[i])) && rows[i] == RowOf(At(n, ps[i]))
  }

  lemma RowsAtAppend(n: Node, rows: seq<CppFunction>, ps: seq<Path>, more: seq<CppFunction>, qs: seq<Path>)
    requires RowsAt(rows, n, ps) && RowsAt(more, n, qs)
    ensures RowsAt(rows + more, n, ps + qs)
  {
  }

  lemma RowsAtChild(n: Node, k: nat, rows: seq<CppFunction>, ps: seq<Path>)
    requires k < |ChildrenOf(n)| && RowsAt(rows, ChildrenOf(n)[k], ps)
    ensures RowsAt(rows, n, Under(k, ps))
  {
    forall i | 0 <= i < |ps| ensures ([k] + ps[i])[1..] == ps[i] {
    }
  }

  lemma {:induction false} RowsFromPaths(n: Node, k: nat)
    requires k <= |ChildrenOf(n)|
    ensures RowsAt(RowsAll(ChildrenOf(n)[k..]), n, RecordedFrom(n, k))
    decreases n, 0, |ChildrenOf(n)| - k
  {
    if k < |ChildrenOf(n)| {
      var c := ChildrenOf(n);
      assert c[k..][0] == c[k] && c[k..][1..] == c[k + 1..];
      RowsFromPaths(n, k + 1);
      RowsAreOfPaths(c[k]);
      RowsAtChild(n, k, Rows(c[k]), RecordedPaths(c[k]));
      RowsAtAppend(n, Rows(c[k]), Under(k, RecordedPaths(c[k])), RowsAll(c[k + 1..]), RecordedFrom(n, k + 1));
    }
  }

  lemma {:induction false} RowsAreOfPaths(n: Node)
    ensures RowsAt(Rows(n), n, RecordedPaths(n))
    decreases n, 1
  {
    RowsFromPaths(n, 0);
    assert ChildrenOf(n)[0..] == ChildrenOf(n);
    if Recorded(n) {
      RowsAtAppend(n, RowsAll(n.children), RecordedFrom(n, 0), [RowOf(n)], [[]]);
    }
  }

  /** Every function of the tree that has a node id of its own is recorded exactly
      once, wherever it stands, and nothing else is; functions inside others come
      before them, and else the order is that of the text. */
  lemma RowsByPlace(n: Node) returns (ps: seq<Path>)
    ensures InOrder(ps) && |Rows(n)| == |ps|
    ensures forall p :: p in ps <==> IsPath(n, p) && At(n, p).FunctionDecl? && At(n, p).astNodeId != 0
    ensures forall i :: 0 <= i < |ps| ==>
      var f := At(n, ps[i]); Rows(n)[i] == Row(f.astNodeId, f.body, f.children)
  {
    ps := RecordedPaths(n);
    RecordedAreListed(n);
    RowsAreOfPaths(n);
  }

  /** The same for what a traversal records. */
  method RecordFunctions(visitor: Visitor, n: Node) returns (ghost ps: seq<Path>)
    requires visitor.Valid()
    modifies visitor, visitor.stmtStack, visitor.stmtStack.scopes
    ensures InOrder(ps)
    ensures forall p :: p in ps <==> IsPath(n, p) && At(n, p).FunctionDecl? && At(n, p).astNodeId != 0
    ensures old(visitor.functions) <= visitor.functions && |visitor.functions| == |old(visitor.functions)| + |ps|
    ensures forall i :: 0 <= i < |ps| ==>
      var f := At(n, ps[i]); visitor.functions[|old(visitor.functions)| + i] == Row(f.astNodeId, f.body, f.children)
  {
    visitor.Traverse(n);
    ps := RowsByPlace(n);
  }

  // ----- statements that count -----

  /** The place of what stands at p, when n stands in `place`; None inside of a
      function that is not recorded. */
  function PlaceAt(n: Node, place: Place, p: Path): Option<Place>
    requires IsPath(n, p)
    decreases |p|
  {
    if p == [] then Some(place)
    else
      match PlaceInside(n, place)
      case None => None
      case Some(inner) => PlaceAt(ChildrenOf(n)[p[0]], inner, p[1..])
  }

  function PlaceInside(n: Node, place: Place): Option<Place> {
    match n
    case Stmt(id, kind, _) => Some(Inside(place, id, kind))
    case FunctionDecl(astNodeId, body, _) => if astNodeId == 0 then None else Some(In(BodyStmt(body)))
    case OtherDecl(_) => Some(place)
  }

  predicate CountsHere(n: Node, place: Place) {
    n.Stmt? && Counts(place, n.id, n.kind)
  }

  function CountedAt(n: Node, place: Place): Path -> bool {
    p => IsPath(n, p) && PlaceAt(n, place, p).Some? && CountsHere(At(n, p), PlaceAt(n, place, p).value)
  }

  function CountedPaths(n: Node, place: Place): seq<Path>
    decreases n, 1
  {
    CountedInside(n, place) + (if CountsHere(n, place) then [[]] else [])
  }

  function CountedInside(n: Node, place: Place): seq<Path>
    decreases n, 0, |ChildrenOf(n)| + 1
  {
    match PlaceInside(n, place)
    case None => []
    case Some(inner) => CountedFrom(n, inner, 0)
  }

  function CountedFrom(n: Node, inner: Place, k: nat): seq<Path>
    requires k <= |ChildrenOf(n)|
    decreases n, 0, |ChildrenOf(n)| - k
  {
    if k == |ChildrenOf(n)| then [] else Under(k, CountedPaths(ChildrenOf(n)[k], inner)) + CountedFrom(n, inner, k + 1)
  }

  lemma CountedBelow(n: Node, place: Place, inner: Place, k: nat)
    requires k < |ChildrenOf(n)| && PlaceInside(n, place) == Some(inner)
    ensures forall p :: CountedAt(n, place)([k] + p) == CountedAt(ChildrenOf(n)[k], inner)(p)
  {
    forall p ensures CountedAt(n, place)([k] + p) == CountedAt(ChildrenOf(n)[k], inner)(p) {
      assert ([k] + p)[1..] == p;
    }
  }

  lemma {:induction false} CountedAreListed(n: Node, place: Place)
    ensures Lists(CountedPaths(n, place), n, CountedAt(n, place))
    decreases n, 1
  {
    if PlaceInside(n, place).Some? {
      CountedFromAreListed(n, place, PlaceInside(n, place).value, 0);
    }
    ListsSelf(n, CountedInside(n, place), CountedAt(n, place));
  }

  lemma {:induction false} CountedFromAreListed(n: Node, place: Place, inner: Place, k: nat)
    requires k <= |ChildrenOf(n)| && PlaceInside(n, place) == Some(inner)
    ensures ListsFrom(CountedFrom(n, inner, k), n, k, CountedAt(n, place))
    decreases n, 0, |ChildrenOf(n)| - k
  {
    if k < |ChildrenOf(n)| {
      var c := ChildrenOf(n)[k];
      CountedAreListed(c, inner);
      CountedFromAreListed(n, place, inner, k + 1);
      CountedBelow(n, place, inner, k);
      ListsChild(n, k, CountedPaths(c, inner), CountedFrom(n, inner, k + 1), CountedAt(c, inner), CountedAt(n, place));
    }
  }

  // ----- pairs of places one of which is inside the other, or is the other -----

  function Around(ps: seq<Path>, q: Path): nat {
    if ps == [] then 0 else (if ps[0] <= q then 1 else 0) + Around(ps[1..], q)
  }

  function Pairs(ps: seq<Path>, qs: seq<Path>): nat {
    if qs == [] then 0 else Around(ps, qs[0]) + Pairs(ps, qs[1..])
  }

  lemma {:induction false} AroundAppend(ps: seq<Path>, ps': seq<Path>, q: Path)
    ensures Around(ps + ps', q) == Around(ps, q) + Around(ps', q)
  {
    if ps == [] {
      assert ps + ps' == ps';
    } else {
      AroundAppend(ps[1..], ps', q);
      assert (ps + ps')[1..] == ps[1..] + ps';
    }
  }

  lemma {:induction false} PairsOfMore(ps: seq<Path>, ps': seq<Path>, qs: seq<Path>)
    ensures Pairs(ps + ps', qs) == Pairs(ps, qs) + Pairs(ps', qs)
  {
    if qs != [] {
      AroundAppend(ps, ps', qs[0]);
      PairsOfMore(ps, ps', qs[1..]);
    }
  }

  lemma {:induction false} PairsWithMore(ps: seq<Path>, qs: seq<Path>, qs': seq<Path>)
    ensures Pairs(ps, qs + qs') == Pairs(ps, qs) + Pairs(ps, qs')
  {
    if qs == [] {
      assert qs + qs' == qs';
    } else {
      PairsWithMore(ps, qs[1..], qs');
      assert (qs + qs')[1..] == qs[1..] + qs';
    }
  }

  lemma {:induction false} AroundUnder(k: nat, ps: seq<Path>, q: Path)
    ensures Around(Under(k, ps), [k] + q) == Around(ps, q)
  {
    if ps != [] {
      AroundUnder(k, ps[1..], q);
      assert Under(k, ps)[1..] == Under(k, ps[1..]);
      PrefixUnder(k, ps[0], q);
    }
  }

  lemma PrefixUnder(k: nat, p: Path, q: Path)
    ensures [k] + p <= [k] + q <==> p <= q
  {
    assert ([k] + p)[1..] == p && ([k] + q)[1..] == q;
    if [k] + p <= [k] + q {
      forall i | 0 <= i < |p| ensures p[i] == q[i] {
        assert ([k] + p)[i + 1] == ([k] + q)[i + 1];
      }
    }
  }

  lemma {:induction false} PairsUnder(k: nat, ps: seq<Path>, qs: seq<Path>)
    ensures Pairs(Under(k, ps), Under(k, qs)) == Pairs(ps, qs)
  {
    if qs != [] {
      AroundUnder(k, ps, qs[0]);
      PairsUnder(k, ps, qs[1..]);
      assert Under(k, qs)[1..] == Under(k, qs[1..]);
    }
  }

  lemma {:induction false} NoneAround(ps: seq<Path>, q: Path)
    requires forall p :: p in ps ==> !(p <= q)
    ensures Around(ps, q) == 0
  {
    if ps != [] {
      assert ps[0] in ps && forall p :: p in ps[1..] ==> p in ps;
      NoneAround(ps[1..], q);
    }
  }

  lemma {:induction false} NoPairs(ps: seq<Path>, qs: seq<Path>)
    requires forall p, q :: p in ps && q in qs ==> !(p <= q)
    ensures Pairs(ps, qs) == 0
  {
    if qs != [] {
      assert qs[0] in qs && forall q :: q in qs[1..] ==> q in qs;
      NoneAround(ps, qs[0]);
      NoPairs(ps, qs[1..]);
    }
  }

  lemma {:induction false} RootIsAround(qs: seq<Path>)
    ensures Pairs([[]], qs) == |qs|
  {
    if qs != [] {
      RootIsAround(qs[1..]);
      OneAround([], qs[0]);
    }
  }

  lemma OneAround(p: Path, q: Path)
    requires p <= q
    ensures Around([p], q) == 1
  {
    assert [p][1..] == [];
  }

  // Two groups of places of which none is inside one of the other group.
  lemma PairsApart(ps: seq<Path>, qs: seq<Path>)
    requires forall p, q :: p in ps && q in qs ==> !(p <= q) && !(q <= p)
    ensures Pairs(ps + qs, ps + qs) == Pairs(ps, ps) + Pairs(qs, qs)
  {
    PairsOfMore(ps, qs, ps + qs);
    PairsWithMore(ps, ps, qs);
    PairsWithMore(qs, ps, qs);
    NoPairs(ps, qs);
    NoPairs(qs, ps);
  }

  lemma PairsWithRoot(ps: seq<Path>)
    requires [] !in ps
    ensures Pairs(ps + [[]], ps + [[]]) == Pairs(ps, ps) + |ps| + 1
  {
    PairsOfMore(ps, [[]], ps + [[]]);
    PairsWithMore(ps, ps, [[]]);
    RootIsAround(ps + [[]]);
    NoPairs(ps, [[]]);
  }

  // ----- the recorded numbers are numbers of places and of pairs -----

  lemma {:induction false} CountedNumbers(n: Node, place: Place)
    ensures Statements(n, place) == |CountedPaths(n, place)|
    ensures Nesting(n, place) == Pairs(CountedPaths(n, place), CountedPaths(n, place))
    decreases n, 1
  {
    if PlaceInside(n, place).Some? {
      var inner := PlaceInside(n, place).value;
      CountedFromNumbers(n, place, inner, 0);
      CountedFromAreListed(n, place, inner, 0);
      assert ChildrenOf(n)[0..] == ChildrenOf(n);
    }
    var ps := CountedInside(n, place);
    if CountsHere(n, place) {
      PairsWithRoot(ps);
    } else {
      assert ps + [] == ps;
    }
  }

  lemma {:induction false} CountedFromNumbers(n: Node, place: Place, inner: Place, k: nat)
    requires k <= |ChildrenOf(n)| && PlaceInside(n, place) == Some(inner)
    ensures StatementsAll(ChildrenOf(n)[k..], inner) == |CountedFrom(n, inner, k)|
    ensures NestingAll(ChildrenOf(n)[k..], inner) == Pairs(CountedFrom(n, inner, k), CountedFrom(n, inner, k))
    decreases n, 0, |ChildrenOf(n)| - k
  {
    if k < |ChildrenOf(n)| {
      var c := ChildrenOf(n);
      assert c[k..][0] == c[k] && c[k..][1..] == c[k + 1..];
      var ps, rest := CountedPaths(c[k], inner), CountedFrom(n, inner, k + 1);
      CountedNumbers(c[k], inner);
      CountedFromNumbers(n, place, inner, k + 1);
      CountedFromAreListed(n, place, inner, k + 1);
      PairsUnder(k, ps, ps);
      forall p, q | p in Under(k, ps) && q in rest ensures !(p <= q) && !(q <= p) {
        UnderHas(k, ps, p);
      }
      PairsApart(Under(k, ps), rest);
    }
  }

  /** The record of a function: the number of places inside it, in recorded functions,
      where a statement counts, and the number of pairs of such places one of which
      is inside the other or is the other. */
  lemma RowByPlaces(f: Node) returns (ps: seq<Path>)
    requires f.FunctionDecl? && f.astNodeId != 0
    ensures InOrder(ps)
    ensures forall p :: p in ps <==> CountedAt(f, Outside)(p)
    ensures Row(f.astNodeId, f.body, f.children) == CppFunction(f.astNodeId, Pairs(ps, ps), |ps|)
  {
    ps := CountedPaths(f, Outside);
    CountedAreListed(f, Outside);
    CountedNumbers(f, Outside);
    RowIsNesting(f.astNodeId, f.body, f.children);
  }
}
