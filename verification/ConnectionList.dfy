/** The list of connections of a server in webserver/src/mongoose.c, and the
    loops of ns_server_poll over it. */
module ConnectionList {

  class Connection {
    var next: Connection?
    var prev: Connection?
    // NSF_CLOSE_IMMEDIATELY
    var closeImmediately: bool

    constructor ()
      ensures next == null && prev == null && !closeImmediately
    {
      next, prev, closeImmediately := null, null, false;
    }
  }

  function At(s: seq<Connection>, i: int): (c: Connection?)
    ensures 0 <= i < |s| ==> c == s[i]
  {
    if 0 <= i < |s| then s[i] else null
  }

  predicate Distinct(s: seq<Connection>) {
    forall i, j :: 0 <= i < j < |s| ==> s[i] != s[j]
  }

  // Both links of every element: prev and next are inverse to each other, and
  // the list has no cycle.
  ghost predicate Linked(s: seq<Connection>)
    reads s
  {
    && Distinct(s)
    && forall i {:trigger s[i].next} {:trigger s[i].prev} :: 0 <= i < |s| ==>
         s[i].next == At(s, i + 1) && s[i].prev == At(s, i - 1)
  }

  // Places in a list from which element i was taken out.
  lemma PlaceAfter(s: seq<Connection>, i: nat, j: nat)
    requires i < |s| && j < |s| - 1
    ensures var t := s[..i] + s[i + 1..];
      && t[j] == s[if j < i then j else j + 1]
      && At(t, j + 1) == At(s, if j + 1 < i then j + 1 else j + 2) && At(t, j - 1) == At(s, if j - 1 < i then j - 1 else j)
  {
  }

  lemma DistinctAfter(s: seq<Connection>, i: nat)
    requires i < |s| && Distinct(s)
    ensures Distinct(s[..i] + s[i + 1..])
  {
  }

  class Server {
    var active: Connection?
    ghost var list: seq<Connection>
    // All connections the server has had.
    ghost var repr: set<Connection>

    ghost predicate Valid()
      reads this, repr
    {
      (forall i :: 0 <= i < |list| ==> list[i] in repr) && Linked(list) && active == At(list, 0)
    }

    constructor ()
      ensures Valid() && list == []
    {
      active, list, repr := null, [], {};
    }

    // ns_add_conn
    method AddConn(c: Connection)
      requires Valid() && c !in list
      modifies this, c, repr
      ensures Valid() && list == [c] + old(list) && repr == old(repr) + {c}
      ensures c.closeImmediately == old(c.closeImmediately)
    {
      c.next := active;
      active := c;
      c.prev := null;
      if c.next != null {
        c.next.prev := c;
      }
      list, repr := [c] + list, repr + {c};
    }

    // ns_remove_conn, for the connection in place i of the list
    method RemoveConn(conn: Connection, ghost i: nat)
      requires Valid() && i < |list| && conn == list[i]
      modifies this`active, this`list, repr`prev, repr`next
      ensures Valid() && list == old(list[..i] + list[i + 1..])
      ensures Flags(old(list)) == old(Flags(list))
    {
      if conn.prev == null {
        active := conn.next;
      }
      if conn.prev != null {
        conn.prev.next := conn.next;
      }
      if conn.next != null {
        conn.next.prev := conn.prev;
      }
      ghost var s := list;
      list := s[..i] + s[i + 1..];
      forall j {:trigger list[j].next} {:trigger list[j].prev} | 0 <= j < |list|
        ensures list[j].next == At(list, j + 1) && list[j].prev == At(list, j - 1)
      {
        PlaceAfter(s, i, j);
        assert s[if j < i then j else j + 1] == list[j];
      }
      DistinctAfter(s, i);
    }

    // A callback for one connection may set or clear the flag of any listed one.
    method CallHandler(conn: Connection, react: Reaction)
      requires Valid()
      modifies repr`closeImmediately
      ensures Valid() && Flags(list) == After(conn, old(Flags(list)), list, react)
    {
      ghost var i := 0;
      var d := active;
      while d != null
        invariant Valid() && i <= |list| && d == At(list, i)
        invariant forall j {:trigger list[j]} :: 0 <= j < |list| ==>
          (list[j].closeImmediately
            == if j < i then react(conn, list[j], old(list[j].closeImmediately)) else old(list[j].closeImmediately))
        decreases |list| - i
      {
        assert d == list[i];
        d.closeImmediately := react(conn, d, d.closeImmediately);
        d := d.next;
        i := i + 1;
      }
    }

    // ns_close_conn, for the connection between the parts a and rest of the list
    method CloseConn(conn: Connection, ghost a: seq<Connection>, ghost rest: seq<Connection>, react: Reaction)
      requires Valid() && list == a + [conn] + rest
      modifies this`active, this`list, repr
      ensures Valid() && list == a + rest
      ensures Flags(rest) == After(conn, old(Flags(rest)), rest, react)
    {
      FlagsOfRest(list, a + [conn], rest);
      CutOut(a, conn, rest);
      ghost var s, flags := list, Flags(list);
      CallHandler(conn, react);
      RemoveConn(conn, |a|);
      FlagsOfRest(s, a + [conn], rest);
      AfterOfRest(conn, flags, s, a + [conn], rest, react);
    }

    /** The closing sweep at the end of a poll: each listed connection is visited
        once, and those whose flag is set when visited are taken out. */
    method ClosingSweep(react: Reaction) returns (numActive: nat, ghost visited: seq<Connection>)
      requires Valid()
      modifies this`active, this`list, repr
      ensures Valid() && visited == old(list) && numActive == |visited|
      ensures list == Survivors(old(list), old(Flags(list)), react)
    {
      ghost var rest, kept: seq<Connection> := list, [];
      ghost var all := Survivors(rest, Flags(rest), react);
      numActive, visited := 0, [];
      var conn := active;
      assert kept + rest == rest && kept + all == all;
      while conn != null
        invariant Valid() && conn == At(rest, 0) && list == kept + rest
        invariant visited + rest == old(list) && numActive == |visited|
        invariant all == kept + Survivors(rest, Flags(rest), react)
        decreases |rest|
      {
        ghost var flags := Flags(rest);
        SurvivorsNext(kept, rest, flags, react);
        FlagsOfRest(rest, [conn], rest[1..]);
        assert list == kept + ([conn] + rest[1..]);
        VisitNext(visited, rest);
        visited, numActive := visited + [conn], numActive + 1;
        conn, kept := SweepOne(conn, kept, rest[1..], react);
        rest := rest[1..];
      }
      assert kept + [] == kept;
    }

    lemma VisitNext(visited: seq<Connection>, rest: seq<Connection>)
      requires rest != []
      ensures visited + [rest[0]] + rest[1..] == visited + rest
    {
    }

    method SweepOne(conn: Connection, ghost a: seq<Connection>, ghost rest: seq<Connection>, react: Reaction)
        returns (next: Connection?, ghost a': seq<Connection>)
      requires Valid() && list == a + ([conn] + rest)
      modifies this`active, this`list, repr
      ensures Valid() && next == At(rest, 0) && list == a' + rest
      ensures a' == a + (if old(conn.closeImmediately) then [] else [conn])
      ensures Flags(rest) == FlagsAfter(conn, old(conn.closeImmediately), old(Flags(rest)), rest, react)
    {
      assert list[|a|] == conn && At(list, |a| + 1) == At(rest, 0);
      next := conn.next;
      a' := a + (if conn.closeImmediately then [] else [conn]);
      if conn.closeImmediately {
        CloseConn(conn, a, rest, react);
      }
    }

    /** The socket loop: connections added at the head by callbacks are not
        visited, and all others are, once and in order. */
    method SocketLoop(react: Reaction) returns (ghost visited: seq<Connection>)
      requires Valid()
      modifies this, repr
      ensures Valid() && visited == old(list) && fresh(repr - old(repr))
      ensures exists added :: list == added + old(list)
    {
      ghost var added: seq<Connection>, rest := [], list;
      visited := [];
      var conn := active;
      while conn != null
        invariant Valid() && conn == At(rest, 0) && visited + rest == old(list) && list == added + old(list)
        invariant old(repr) <= repr && fresh(repr - old(repr))
        decreases |rest|
      {
        NextOf(list, added, visited, rest);
        var tmp := conn.next;
        ghost var more := HandleSocket(conn, react);
        visited, rest, added := visited + [conn], rest[1..], more + added;
        conn := tmp;
      }
    }

    // Reading and writing may change flags and add connections, at the head.
    method HandleSocket(conn: Connection, react: Reaction) returns (ghost added: seq<Connection>)
      requires Valid() && conn in repr
      modifies this, repr
      ensures Valid() && list == added + old(list) && old(repr) <= repr && fresh(repr - old(repr))
    {
      CallHandler(conn, react);
      var accepted: int := *;
      added := AcceptConns(accepted);
    }

    method AcceptConns(count: int) returns (ghost added: seq<Connection>)
      requires Valid()
      modifies this, repr
      ensures Valid() && list == added + old(list) && old(repr) <= repr && fresh(repr - old(repr))
      decreases count
    {
      added := [];
      if count > 0 {
        added := AcceptConns(count - 1);
        var c := AcceptConn();
        assert [c] + (added + old(list)) == [c] + added + old(list);
        added := [c] + added;
      }
    }

    method AcceptConn() returns (c: Connection)
      requires Valid()
      modifies this, repr
      ensures Valid() && fresh(c) && list == [c] + old(list) && repr == old(repr) + {c}
    {
      c := new Connection();
      AddConn(c);
    }
  }

  /** What a callback for one connection does to the flag of another. No connection
      is closed or visited twice in one loop, so this covers every handler, also
      one whose answers depend on what it did before. */
  type Reaction = (Connection, Connection, bool) -> bool

  ghost function Flags(s: seq<Connection>): (f: seq<bool>)
    reads s
    ensures |f| == |s|
  {
    seq(|s|, i requires 0 <= i < |s| reads s => s[i].closeImmediately)
  }

  function After(conn: Connection, flags: seq<bool>, s: seq<Connection>, react: Reaction): (f: seq<bool>)
    requires |flags| == |s|
    ensures |f| == |s|
  {
    seq(|s|, i requires 0 <= i < |s| => react(conn, s[i], flags[i]))
  }

  // Who is left: the flags change as connections are closed.
  function Survivors(s: seq<Connection>, flags: seq<bool>, react: Reaction): seq<Connection>
    requires |flags| == |s|
  {
    if s == [] then []
    else (if flags[0] then [] else [s[0]]) + Survivors(s[1..], FlagsAfter(s[0], flags[0], flags[1..], s[1..], react), react)
  }

  lemma SurvivorsNext(kept: seq<Connection>, s: seq<Connection>, flags: seq<bool>, react: Reaction)
    requires s != [] && |flags| == |s|
    ensures kept + Survivors(s, flags, react)
      == kept + (if flags[0] then [] else [s[0]])
         + Survivors(s[1..], FlagsAfter(s[0], flags[0], flags[1..], s[1..], react), react)
  {
  }

  // The flags of the others after a connection was visited.
  function FlagsAfter(conn: Connection, closes: bool, flags: seq<bool>, rest: seq<Connection>, react: Reaction): (f: seq<bool>)
    requires |flags| == |rest|
    ensures |f| == |rest|
  {
    if closes then After(conn, flags, rest, react) else flags
  }

  /** When the handler leaves the flags alone, exactly the unflagged stay. */
  lemma {:induction false} QuietSweep(s: seq<Connection>, flags: seq<bool>, react: Reaction, i: nat)
    requires |flags| == |s| && Distinct(s) && i < |s| && forall c, d, f :: react(c, d, f) == f
    ensures s[i] in Survivors(s, flags, react) <==> !flags[i]
    decreases |s|
  {
    var after := FlagsAfter(s[0], flags[0], flags[1..], s[1..], react);
    forall j | 0 <= j < |after| ensures after[j] == flags[1..][j] {
      assert react(s[0], s[1..][j], flags[1..][j]) == flags[1..][j];
    }
    assert after == flags[1..];
    if i > 0 {
      QuietSweep(s[1..], flags[1..], react, i - 1);
    } else {
      SurvivorsAreListed(s[1..], flags[1..], react, s[0]);
    }
  }

  lemma {:induction false} SurvivorsAreListed(s: seq<Connection>, flags: seq<bool>, react: Reaction, c: Connection)
    requires |flags| == |s| && c !in s
    ensures c !in Survivors(s, flags, react)
    decreases |s|
  {
    if s != [] {
      SurvivorsAreListed(s[1..], FlagsAfter(s[0], flags[0], flags[1..], s[1..], react), react, c);
    }
  }

  lemma FlagsOfRest(s: seq<Connection>, a: seq<Connection>, rest: seq<Connection>)
    requires s == a + rest
    ensures Flags(s)[|a|..] == Flags(rest)
  {
  }

  lemma NextOf(s: seq<Connection>, added: seq<Connection>, visited: seq<Connection>, rest: seq<Connection>)
    requires rest != [] && s == added + (visited + rest)
    ensures var k := |added| + |visited|;
      s[k] == rest[0] && At(s, k + 1) == At(rest[1..], 0)
    ensures visited + [rest[0]] + rest[1..] == visited + rest
  {
  }

  lemma AfterOfRest(conn: Connection, flags: seq<bool>, s: seq<Connection>, a: seq<Connection>, rest: seq<Connection>,
                    react: Reaction)
    requires s == a + rest && |flags| == |s|
    ensures After(conn, flags, s, react)[|a|..] == After(conn, flags[|a|..], rest, react)
  {
  }

  lemma CutOut(a: seq<Connection>, c: Connection, rest: seq<Connection>)
    ensures var s := a + [c] + rest; s[|a|] == c && s[..|a|] + s[|a| + 1..] == a + rest
  {
  }
}
