/** The identifiers of util/src/graph.cpp: generateId counts in bijective base 26,
    least significant letter first. One graph that is not moved from. */
module GraphIds {

  predicate IsLetter(c: char) {
    'a' <= c <= 'z'
  }

  predicate LowerCase(s: string) {
    forall i :: 0 <= i < |s| ==> IsLetter(s[i])
  }

  function Letter(c: char): (n: nat)
    requires IsLetter(c)
    ensures 1 <= n <= 26
  {
    c as int - 'a' as int + 1
  }

  // The number an identifier stands for; the empty one is zero.
  function Value(s: string): nat
    requires LowerCase(s)
  {
    if s == "" then 0 else Letter(s[0]) + 26 * Value(s[1..])
  }

  lemma Digits(a: nat, b: nat, x: nat, y: nat)
    requires 1 <= a <= 26 && 1 <= b <= 26 && a + 26 * x == b + 26 * y
    ensures a == b && x == y
  {
  }

  /** Every identifier has a number of its own. */
  lemma {:induction false} ValueInjective(s: string, t: string)
    requires LowerCase(s) && LowerCase(t) && Value(s) == Value(t)
    ensures s == t
  {
    if s != "" && t != "" {
      Digits(Letter(s[0]), Letter(t[0]), Value(s[1..]), Value(t[1..]));
      ValueInjective(s[1..], t[1..]);
      assert s == [s[0]] + s[1..] && t == [t[0]] + t[1..];
    }
  }

  // The successor: leading letters z become a, the next one is raised, or one is added.
  function Successor(s: string): (t: string)
    requires LowerCase(s)
    ensures LowerCase(t) && t != ""
  {
    if s == "" then "a"
    else if s[0] == 'z' then ['a'] + Successor(s[1..])
    else [(s[0] as int + 1) as char] + s[1..]
  }

  /** One step adds exactly one. */
  lemma {:induction false} SuccessorAddsOne(s: string)
    requires LowerCase(s)
    ensures Value(Successor(s)) == Value(s) + 1
  {
    if s == "" {
      assert "a"[1..] == "";
    } else if s[0] == 'z' {
      SuccessorAddsOne(s[1..]);
      assert (['a'] + Successor(s[1..]))[1..] == Successor(s[1..]);
    } else {
      assert Successor(s)[1..] == s[1..];
    }
  }

  // The identifiers in use that are still ahead.
  ghost function Ahead(ids: set<string>, s: string): set<string>
    requires LowerCase(s)
  {
    set id | id in ids && LowerCase(id) && Value(id) > Value(s)
  }

  lemma FewerAhead(ids: set<string>, s: string, t: string)
    requires LowerCase(s) && LowerCase(t) && Value(t) == Value(s) + 1 && t in ids
    ensures |Ahead(ids, t)| < |Ahead(ids, s)|
  {
    assert t in Ahead(ids, s) && t !in Ahead(ids, t);
    Smaller(Ahead(ids, t), Ahead(ids, s));
  }

  lemma {:induction false} Smaller<T>(a: set<T>, b: set<T>)
    requires a < b
    ensures |a| < |b|
  {
    assert b == a + (b - a);
    assert |b - a| > 0;
  }

  datatype EdgeEnds = EdgeEnds(from: string, to: string)

  class Graph {
    var ids: set<string>
    var currentId: string
    var edges: map<string, EdgeEnds>
    // All results of GenerateId so far.
    ghost var generated: seq<string>

    /** Every generated identifier is behind the counter, each one after those before it. */
    ghost predicate Valid()
      reads this
    {
      && LowerCase(currentId)
      && (forall i :: 0 <= i < |generated| ==>
            LowerCase(generated[i]) && generated[i] != "" && Value(generated[i]) <= Value(currentId))
      && (forall i, j :: 0 <= i < j < |generated| ==> Value(generated[i]) < Value(generated[j]))
      && forall e <- edges :: e in generated
    }

    constructor ()
      ensures Valid() && ids == {} && generated == []
    {
      ids, currentId, edges, generated := {}, "", map[], [];
    }

    // The inner loop, in place on the letters of the identifier.
    method Increment()
      requires LowerCase(currentId)
      modifies this`currentId
      ensures currentId == Successor(old(currentId)) && LowerCase(currentId)
    {
      var i := 0;
      ghost var start := currentId;
      while i < |currentId| && currentId[i] == 'z'
        invariant i <= |currentId| == |start| && currentId[i..] == start[i..]
        invariant LowerCase(currentId)
        invariant Successor(start) == currentId[..i] + Successor(start[i..])
      {
        CarryOne(start, currentId, i);
        currentId := currentId[i := 'a'];
        i := i + 1;
      }
      if i == |currentId| {
        currentId := currentId + ['a'];
      } else {
        assert currentId[i] == start[i..][0];
        currentId := currentId[i := (currentId[i] as int + 1) as char];
        assert currentId == currentId[..i] + ([currentId[i]] + start[i..][1..]);
      }
    }

    /** A non-empty lower-case identifier that is not in use, and that was never
        generated before. */
    method GenerateId() returns (id: string)
      requires Valid()
      modifies this`currentId, this`generated
      ensures Valid() && id == currentId && generated == old(generated) + [id]
      ensures id != "" && LowerCase(id) && id !in ids && id !in old(generated)
      ensures Value(id) > Value(old(currentId))
    {
      ghost var before := currentId;
      SuccessorAddsOne(currentId);
      Increment();
      while currentId in ids
        invariant LowerCase(currentId) && currentId != "" && Value(currentId) > Value(before)
        invariant generated == old(generated)
        decreases |Ahead(ids, currentId)|, if currentId in ids then 1 else 0
      {
        ghost var last := currentId;
        SuccessorAddsOne(currentId);
        Increment();
        if currentId in ids {
          FewerAhead(ids, last, currentId);
        } else {
          NoneGained(ids, last, currentId);
        }
      }
      id := currentId;
      generated := generated + [id];
    }

    method GetOrCreateNode(name: string) returns (id: string)
      requires Valid()
      modifies this`currentId, this`generated, this`ids
      ensures Valid() && ids == old(ids) + {id} && (name != "" ==> id == name && generated == old(generated))
      ensures name == "" ==> id !in old(ids) && generated == old(generated) + [id]
    {
      if name == "" {
        id := GenerateId();
      } else {
        id := name;
      }
      ids := ids + {id};
    }

    // An edge does not enter its identifier into ids; it never replaces another edge.
    method CreateEdge(from: string, to: string) returns (id: string)
      requires Valid()
      modifies this`currentId, this`generated, this`edges
      ensures Valid() && edges == old(edges)[id := EdgeEnds(from, to)] && id !in old(edges) && id !in ids
      ensures generated == old(generated) + [id]
    {
      id := GenerateId();
      edges := edges[id := EdgeEnds(from, to)];
    }
  }

  lemma CarryOne(start: string, current: string, i: nat)
    requires LowerCase(start) && i < |current| == |start| && current[i..] == start[i..] && current[i] == 'z'
    requires Successor(start) == current[..i] + Successor(start[i..])
    ensures var next := current[i := 'a'];
      next[i + 1..] == start[i + 1..] && Successor(start) == next[..i + 1] + Successor(start[i + 1..])
  {
    var next := current[i := 'a'];
    assert start[i..][0] == 'z' && start[i..][1..] == start[i + 1..];
    assert next[..i + 1] == current[..i] + ['a'];
    assert next[i + 1..] == current[i..][1..];
  }

  lemma NoneGained(ids: set<string>, s: string, t: string)
    requires LowerCase(s) && LowerCase(t) && Value(t) == Value(s) + 1
    ensures |Ahead(ids, t)| <= |Ahead(ids, s)|
  {
    if Ahead(ids, t) != Ahead(ids, s) {
      Smaller(Ahead(ids, t), Ahead(ids, s));
    }
  }

  /** All identifiers generated by one graph are pairwise distinct. */
  lemma GeneratedDistinct(g: Graph, i: nat, j: nat)
    requires g.Valid() && i < j < |g.generated|
    ensures g.generated[i] != g.generated[j]
  {
    assert Value(g.generated[i]) < Value(g.generated[j]);
  }
}
