/** The two breadth-first loops: transitiveClosureOfRel of
    plugins/cpp/service/src/cppservice.cpp and bfsBuild of util/include/util/graph.h. */
module Bfs {
  import opened Sequences

  type Node = nat

  // The successors of a node, in the order in which a query or a callback lists them.
  type Relation = Node -> seq<Node>

  predicate IsPath(rel: Relation, p: seq<Node>) {
    |p| >= 2 && forall i :: 0 <= i < |p| - 1 ==> p[i + 1] in rel(p[i])
  }

  /** One or more steps lead from a to b. */
  ghost predicate Reaches(rel: Relation, a: Node, b: Node) {
    exists p :: IsPath(rel, p) && p[0] == a && p[|p| - 1] == b
  }

  // A finite set of nodes that successors do not leave.
  ghost predicate Closed(rel: Relation, nodes: set<Node>) {
    forall n <- nodes, k | 0 <= k < |rel(n)| :: rel(n)[k] in nodes
  }

  lemma OneStep(rel: Relation, a: Node, b: Node)
    requires b in rel(a)
    ensures Reaches(rel, a, b)
  {
    assert IsPath(rel, [a, b]);
  }

  lemma OneMoreStep(rel: Relation, a: Node, b: Node, c: Node)
    requires Reaches(rel, a, b) && c in rel(b)
    ensures Reaches(rel, a, c)
  {
    var p :| IsPath(rel, p) && p[0] == a && p[|p| - 1] == b;
    var q := p + [c];
    assert IsPath(rel, q) && q[0] == a && q[|q| - 1] == c;
  }

  // Everything reached from a lies in a set that holds the successors of a and of its elements.
  lemma {:induction false} PathStays(rel: Relation, p: seq<Node>, found: set<Node>)
    requires IsPath(rel, p)
    requires forall b :: b in rel(p[0]) ==> b in found
    requires forall n, b :: n in found && b in rel(n) ==> b in found
    ensures p[|p| - 1] in found
    decreases |p|
  {
    if |p| > 2 {
      PathStays(rel, p[..|p| - 1], found);
    }
  }

  /** Exactly the nodes reached in one or more steps; the start only on a cycle. */
  ghost predicate IsReach(rel: Relation, start: Node, found: set<Node>) {
    forall n :: n in found <==> Reaches(rel, start, n)
  }

  // All of found is reached, and what is not waiting has its successors found.
  ghost predicate Searching(rel: Relation, start: Node, done: seq<Node>, queue: seq<Node>, found: set<Node>) {
    && (forall n <- found :: Reaches(rel, start, n))
    && (forall n, b :: n in done && b in rel(n) ==> b in found)
    && (start in done || start in queue)
    && forall n <- found :: n in done || n in queue
  }

  lemma SearchEnds(rel: Relation, start: Node, done: seq<Node>, found: set<Node>)
    requires Searching(rel, start, done, [], found)
    ensures IsReach(rel, start, found)
  {
    forall n | Reaches(rel, start, n) ensures n in found {
      var p :| IsPath(rel, p) && p[0] == start && p[|p| - 1] == n;
      PathStays(rel, p, found);
    }
  }

  predicate NoDuplicates(s: seq<Node>) {
    forall i, j :: 0 <= i < j < |s| ==> s[i] != s[j]
  }

  // The start was queued first, then every node once when it was found.
  ghost predicate QueuedOnce(start: Node, all: seq<Node>, found: set<Node>) {
    all != [] && all[0] == start && NoDuplicates(all[1..]) && forall n :: n in found <==> n in all[1..]
  }

  // The nodes among s that are not in found, each once: what gets queued.
  function NewOnes(s: seq<Node>, found: set<Node>): seq<Node> {
    if s == [] then []
    else if s[|s| - 1] in found || s[|s| - 1] in s[..|s| - 1] then NewOnes(s[..|s| - 1], found)
    else NewOnes(s[..|s| - 1], found) + [s[|s| - 1]]
  }

  function Elements(s: seq<Node>): set<Node> {
    set n | n in s
  }

  lemma {:induction false} NewOnesAre(s: seq<Node>, found: set<Node>)
    ensures NoDuplicates(NewOnes(s, found))
    ensures forall n :: n in NewOnes(s, found) <==> n in s && n !in found
  {
    if s != [] {
      var first, last := s[..|s| - 1], s[|s| - 1];
      NewOnesAre(first, found);
      assert forall n :: n in s <==> n in first || n == last;
    }
  }

  lemma NoneTwice(s: seq<Node>, t: seq<Node>)
    ensures NoDuplicates(s + t) <==> NoDuplicates(s) && NoDuplicates(t) && forall n :: n in t ==> n !in s
  {
    var all := s + t;
    assert forall i :: 0 <= i < |s| ==> all[i] == s[i];
    if NoDuplicates(all) {
      forall i, j | 0 <= i < j < |t| ensures t[i] != t[j] {
        assert all[|s| + i] != all[|s| + j];
      }
      forall n | n in t ensures n !in s {
        var j :| 0 <= j < |t| && t[j] == n;
        assert forall i :: 0 <= i < |s| ==> all[i] != all[|s| + j];
      }
    } else {
      var i, j :| 0 <= i < j < |all| && all[i] == all[j];
      if j < |s| {
        assert s[i] == s[j];
      } else if i < |s| {
        assert t[j - |s|] in t && t[j - |s|] == s[i];
      } else {
        assert t[i - |s|] == t[j - |s|];
      }
    }
  }

  lemma QueuedMore(start: Node, all: seq<Node>, found: set<Node>, more: seq<Node>)
    requires QueuedOnce(start, all, found)
    ensures QueuedOnce(start, all + NewOnes(more, found), found + Elements(more))
  {
    NewOnesAre(more, found);
    var added := NewOnes(more, found);
    assert (all + added)[1..] == all[1..] + added;
    NoneTwice(all[1..], added);
  }

  // The node at the head of the queue has been expanded.
  lemma Expanded(rel: Relation, start: Node, done: seq<Node>, queue: seq<Node>, found: set<Node>)
    requires Searching(rel, start, done, queue, found) && queue != []
    requires queue[0] == start || queue[0] in found
    ensures var c := queue[0];
      Searching(rel, start, done + [c], queue[1..] + NewOnes(rel(c), found), found + Elements(rel(c)))
  {
    var c := queue[0];
    var added, found' := NewOnes(rel(c), found), found + Elements(rel(c));
    NewOnesAre(rel(c), found);
    forall n <- found' ensures Reaches(rel, start, n) {
      if n !in found {
        if c == start {
          OneStep(rel, start, n);
        } else {
          OneMoreStep(rel, start, c, n);
        }
      }
    }
    assert queue == [c] + queue[1..];
  }

  // Both searches end: a node is found, or the queue gets shorter.
  lemma Progress(nodes: set<Node>, found: set<Node>, more: seq<Node>)
    requires found <= nodes && Elements(more) <= nodes
    ensures found + Elements(more) <= nodes
    ensures NewOnes(more, found) == [] || |nodes - (found + Elements(more))| < |nodes - found|
    ensures |nodes - (found + Elements(more))| <= |nodes - found|
  {
    NewOnesAre(more, found);
    var left, left' := nodes - found, nodes - (found + Elements(more));
    assert left == left' + (left - left');
    if NewOnes(more, found) != [] {
      var n := NewOnes(more, found)[0];
      assert n in left - left';
      assert |left - left'| > 0;
    }
  }

  // The body of the loop over the successors of a node.
  method Enqueue(successors: seq<Node>, queue: seq<Node>, found: set<Node>) returns (queue': seq<Node>, found': set<Node>)
    ensures queue' == queue + NewOnes(successors, found) && found' == found + Elements(successors)
  {
    queue', found' := queue, found;
    for i := 0 to |successors|
      invariant queue' == queue + NewOnes(successors[..i], found) && found' == found + Elements(successors[..i])
    {
      var n := successors[i];
      assert successors[..i + 1][..i] == successors[..i] && Elements(successors[..i + 1]) == Elements(successors[..i]) + {n};
      if n !in found' {
        queue' := queue' + [n];
        found' := found' + {n};
      }
    }
    assert successors[..|successors|] == successors;
  }

  // ----- transitiveClosureOfRel -----

  datatype Row = Row(lhs: Node, rhs: Node, kind: nat)

  // The rows a query returns for a node, and the other side of each.
  function Others(rows: seq<Row>, kind: nat, reverse: bool, current: Node): seq<Node> {
    if rows == [] then []
    else
      var r := rows[|rows| - 1];
      Others(rows[..|rows| - 1], kind, reverse, current)
      + (if r.kind == kind && (if reverse then r.lhs else r.rhs) == current then [if reverse then r.rhs else r.lhs] else [])
  }

  function Query(rows: seq<Row>, kind: nat, reverse: bool): Relation {
    n => Others(rows, kind, reverse, n)
  }

  function Sides(rows: seq<Row>): set<Node> {
    (set r | r in rows :: r.lhs) + (set r | r in rows :: r.rhs)
  }

  lemma {:induction false} OthersAre(rows: seq<Row>, kind: nat, reverse: bool, current: Node)
    ensures forall n ::
      (n in Others(rows, kind, reverse, current) <==> (if reverse then Row(current, n, kind) else Row(n, current, kind)) in rows)
  {
    if rows != [] {
      var first, r := rows[..|rows| - 1], rows[|rows| - 1];
      OthersAre(first, kind, reverse, current);
      assert forall q :: q in rows <==> q in first || q == r;
    }
  }

  lemma QueryStays(rows: seq<Row>, kind: nat, reverse: bool, nodes: set<Node>)
    requires Sides(rows) <= nodes
    ensures Closed(Query(rows, kind, reverse), nodes)
  {
    forall n <- nodes, k | 0 <= k < |Query(rows, kind, reverse)(n)|
      ensures Query(rows, kind, reverse)(n)[k] in nodes
    {
      var b := Others(rows, kind, reverse, n)[k];
      OthersAre(rows, kind, reverse, n);
      var r := if reverse then Row(n, b, kind) else Row(b, n, kind);
      assert r in rows && (r.lhs in Sides(rows) && r.rhs in Sides(rows));
    }
  }

  /** Exactly what is reached over rows of one kind, in either direction. */
  method TransitiveClosureOfRel(rows: seq<Row>, kind: nat, to: Node, reverse: bool) returns (ret: set<Node>)
    ensures IsReach(Query(rows, kind, reverse), to, ret)
  {
    ghost var rel, nodes, done := Query(rows, kind, reverse), Sides(rows) + {to}, [];
    QueryStays(rows, kind, reverse, nodes);
    ret := {};
    var q := [to];
    while q != []
      invariant Searching(rel, to, done, q, ret) && ret <= nodes
      invariant forall n :: n in q ==> n == to || n in ret
      decreases |nodes - ret|, |q|
    {
      var current := q[0];
      var result := Others(rows, kind, reverse, current);
      Expanded(rel, to, done, q, ret);
      SuccessorsIn(rel, nodes, current);
      Progress(nodes, ret, result);
      NewOnesAre(result, ret);
      done := done + [current];
      q, ret := Enqueue(result, q[1..], ret);
    }
    SearchEnds(rel, to, done, ret);
  }

  lemma SuccessorsIn(rel: Relation, nodes: set<Node>, n: Node)
    requires Closed(rel, nodes) && n in nodes
    ensures Elements(rel(n)) <= nodes
  {
  }

  // ----- bfsBuild -----

  datatype Edge = Edge(from: Node, to: Node)

  function EdgesOf(rel: Relation, n: Node): seq<Edge> {
    seq(|rel(n)|, i requires 0 <= i < |rel(n)| => Edge(n, rel(n)[i]))
  }

  function OutEdges(rel: Relation): Node -> seq<Edge> {
    (n: Node) => EdgesOf(rel, n)
  }

  // The nodes found are the successors of the nodes taken.
  ghost predicate AreSuccessors(rel: Relation, taken: seq<Node>, visited: set<Node>) {
    forall n :: n in visited <==> exists c :: c in taken && n in rel(c)
  }

  lemma MoreSuccessors(rel: Relation, taken: seq<Node>, visited: set<Node>, c: Node)
    requires AreSuccessors(rel, taken, visited)
    ensures AreSuccessors(rel, taken + [c], visited + Elements(rel(c)))
  {
    forall n ensures n in visited + Elements(rel(c)) <==> exists d :: d in taken + [c] && n in rel(d) {
      if n in visited {
        var d :| d in taken && n in rel(d);
        assert d in taken + [c];
      } else if n in rel(c) {
        assert c in taken + [c];
      }
    }
  }

  /** The nodes taken from the queue are the start and then found nodes, each once;
      every edge that leaves one of them has been created. */
  ghost predicate Built(rel: Relation, start: Node, taken: seq<Node>, visited: set<Node>, edges: seq<Edge>) {
    && edges == FlatMap(OutEdges(rel), taken)
    && (taken != [] ==> taken[0] == start && NoDuplicates(taken[1..]) && forall n :: n in taken[1..] ==> n in visited)
    && AreSuccessors(rel, taken, visited)
  }

  // Edges lead from the nodes taken to their successors.
  lemma {:induction false} EdgesAre(rel: Relation, taken: seq<Node>)
    ensures forall e: Edge :: e in FlatMap(OutEdges(rel), taken) <==> e.from in taken && e.to in rel(e.from)
  {
    if taken != [] {
      var first, n := taken[..|taken| - 1], taken[|taken| - 1];
      EdgesAre(rel, first);
      assert taken == first + [n];
      assert forall e: Edge :: e in EdgesOf(rel, n) <==> e.from == n && e.to in rel(n) by {
        EdgesOfNode(rel, n);
      }
    }
  }

  lemma EdgesOfNode(rel: Relation, n: Node)
    ensures forall e: Edge :: e in EdgesOf(rel, n) <==> e.from == n && e.to in rel(n)
  {
    forall e: Edge | e.from == n && e.to in rel(n) ensures e in EdgesOf(rel, n) {
      var i :| 0 <= i < |rel(n)| && rel(n)[i] == e.to;
      assert EdgesOf(rel, n)[i] == e;
    }
  }

  /** level_ counts nodes taken from the queue, from 1 on, not levels: only a
      positive one ends the search early. Otherwise the start is taken first and
      every node that is reached once after it, the start again if it is reached. */
  method BfsBuild(rel: Relation, startNode: Node, level: int, ghost nodes: set<Node>)
      returns (visitedNodes: set<Node>, edges: seq<Edge>, ghost taken: seq<Node>)
    requires startNode in nodes && Closed(rel, nodes)
    ensures Built(rel, startNode, taken, visitedNodes, edges)
    ensures forall e: Edge :: e in edges <==> e.from in taken && e.to in rel(e.from)
    ensures forall n <- visitedNodes :: Reaches(rel, startNode, n)
    ensures level < -1 ==> taken == []
    ensures level > 0 ==> |taken| <= level
    ensures level in {-1, 0} || (level > 0 && |taken| < level) ==>
      IsReach(rel, startNode, visitedNodes) && taken != [] && Elements(taken[1..]) == visitedNodes
  {
    visitedNodes, edges, taken := {}, [], [];
    if level < -1 {
      return;
    }
    var count := 0;
    var queue := [startNode];
    var walkLevel := true;
    while queue != [] && walkLevel
      invariant Building(rel, startNode, taken, queue, visitedNodes, edges) && visitedNodes <= nodes
      invariant count == |taken| && (level > 0 && walkLevel ==> count < level) && (level > 0 ==> count <= level)
      invariant walkLevel || count == level > 0
      decreases |nodes - visitedNodes|, |queue|
    {
      queue, visitedNodes, edges, taken := TakeOne(rel, startNode, taken, queue, visitedNodes, edges, nodes);
      count := count + 1;
      if level != -1 {
        walkLevel := count != level;
      }
    }
    QueuedIsTaken(startNode, taken, queue, visitedNodes);
    EdgesAre(rel, taken);
    if queue == [] {
      SearchEnds(rel, startNode, taken, visitedNodes);
    }
  }

  lemma QueuedIsTaken(start: Node, taken: seq<Node>, queue: seq<Node>, visited: set<Node>)
    requires QueuedOnce(start, taken + queue, visited)
    ensures taken != [] ==> taken[0] == start && NoDuplicates(taken[1..]) && forall n :: n in taken[1..] ==> n in visited
    ensures queue == [] ==> taken != [] && Elements(taken[1..]) == visited
  {
    if queue == [] {
      assert taken + queue == taken;
    }
    if taken != [] {
      assert (taken + queue)[1..] == taken[1..] + queue;
      assert taken == [taken[0]] + taken[1..];
      NoneTwice(taken[1..], queue);
    }
  }

  ghost predicate Building(rel: Relation, start: Node, taken: seq<Node>, queue: seq<Node>, visited: set<Node>,
                           edges: seq<Edge>)
  {
    && Searching(rel, start, taken, queue, visited) && QueuedOnce(start, taken + queue, visited)
    && AreSuccessors(rel, taken, visited) && edges == FlatMap(OutEdges(rel), taken)
  }

  lemma BuiltOneMore(rel: Relation, start: Node, taken: seq<Node>, queue: seq<Node>, visited: set<Node>, edges: seq<Edge>)
    requires Building(rel, start, taken, queue, visited, edges) && queue != []
    ensures var c := queue[0];
      Building(rel, start, taken + [c], queue[1..] + NewOnes(rel(c), visited), visited + Elements(rel(c)),
        edges + EdgesOf(rel, c))
  {
    var c := queue[0];
    HeadIsFound(start, taken, queue, visited);
    Expanded(rel, start, taken, queue, visited);
    QueuedMore(start, taken + queue, visited, rel(c));
    Requeued(taken, queue, NewOnes(rel(c), visited));
    MoreSuccessors(rel, taken, visited, c);
    EdgesNext(rel, taken, c);
  }

  lemma EdgesNext(rel: Relation, taken: seq<Node>, c: Node)
    ensures FlatMap(OutEdges(rel), taken + [c]) == FlatMap(OutEdges(rel), taken) + EdgesOf(rel, c)
  {
    var all := taken + [c];
    FlatMapNext(OutEdges(rel), all, |taken|);
    assert all[..|taken|] == taken && all[..|all|] == all;
  }

  method TakeOne(rel: Relation, ghost start: Node, ghost taken: seq<Node>, queue: seq<Node>, visited: set<Node>,
                 edges: seq<Edge>, ghost nodes: set<Node>)
      returns (queue': seq<Node>, visited': set<Node>, edges': seq<Edge>, ghost taken': seq<Node>)
    requires queue != [] && Building(rel, start, taken, queue, visited, edges)
    requires Closed(rel, nodes) && visited <= nodes && start in nodes
    ensures Building(rel, start, taken', queue', visited', edges') && visited' <= nodes
    ensures |taken'| == |taken| + 1
    ensures |nodes - visited'| < |nodes - visited| || (|nodes - visited'| == |nodes - visited| && |queue'| < |queue|)
  {
    var current := queue[0];
    BuiltOneMore(rel, start, taken, queue, visited, edges);
    HeadIsFound(start, taken, queue, visited);
    SuccessorsIn(rel, nodes, current);
    Progress(nodes, visited, rel(current));
    queue', visited' := Enqueue(rel(current), queue[1..], visited);
    edges', taken' := edges + EdgesOf(rel, current), taken + [current];
  }

  lemma HeadIsFound(start: Node, taken: seq<Node>, queue: seq<Node>, visited: set<Node>)
    requires queue != [] && QueuedOnce(start, taken + queue, visited)
    ensures queue[0] == start || queue[0] in visited
  {
    if taken != [] {
      assert (taken + queue)[1..][|taken| - 1] == queue[0];
    }
  }

  lemma Requeued(taken: seq<Node>, queue: seq<Node>, more: seq<Node>)
    requires queue != []
    ensures taken + queue + more == taken + [queue[0]] + (queue[1..] + more)
  {
  }
}
