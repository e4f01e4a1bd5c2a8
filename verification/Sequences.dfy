/** Sequences cut into pieces and put together again. */
module Sequences {

  function Concat<T>(pieces: seq<seq<T>>): seq<T> {
    if pieces == [] then [] else Concat(pieces[..|pieces| - 1]) + pieces[|pieces| - 1]
  }

  lemma {:induction false} ConcatStart<T>(pieces: seq<seq<T>>, i: nat)
    requires i <= |pieces|
    ensures Concat(pieces[..i]) <= Concat(pieces)
    decreases |pieces|
  {
    if i == |pieces| {
      assert pieces[..i] == pieces;
    } else {
      ConcatStart(pieces[..|pieces| - 1], i);
      assert pieces[..|pieces| - 1][..i] == pieces[..i];
    }
  }

  // Every element replaced by a sequence.
  function FlatMap<S, T>(f: S -> seq<T>, s: seq<S>): seq<T> {
    if s == [] then [] else FlatMap(f, s[..|s| - 1]) + f(s[|s| - 1])
  }

  lemma FlatMapNext<S, T>(f: S -> seq<T>, s: seq<S>, i: nat)
    requires i < |s|
    ensures FlatMap(f, s[..i + 1]) == FlatMap(f, s[..i]) + f(s[i])
  {
    assert s[..i + 1][..i] == s[..i];
  }

  lemma {:induction false} FlatMapAppend<S, T>(f: S -> seq<T>, a: seq<S>, b: seq<S>)
    ensures FlatMap(f, a + b) == FlatMap(f, a) + FlatMap(f, b)
  {
    if b == [] {
      assert a + b == a;
    } else {
      var first, last := b[..|b| - 1], b[|b| - 1];
      FlatMapAppend(f, a, first);
      assert (a + b)[..|a + b| - 1] == a + first;
      assert FlatMap(f, a) + (FlatMap(f, first) + f(last)) == FlatMap(f, a) + FlatMap(f, first) + f(last);
    }
  }

  // A decoder that gets one element back from its image gets all of them back.
  ghost predicate Undoes<S(!new), T(!new)>(decode: seq<T> -> seq<S>, f: S -> seq<T>) {
    forall x, t {:trigger decode(f(x) + t)} :: decode(f(x) + t) == [x] + decode(t)
  }

  lemma {:induction false} FlatMapUndone<S(!new), T(!new)>(decode: seq<T> -> seq<S>, f: S -> seq<T>, s: seq<S>, t: seq<T>)
    requires Undoes(decode, f)
    ensures decode(FlatMap(f, s) + t) == s + decode(t)
    decreases |s|
  {
    if s == [] {
      assert FlatMap(f, s) + t == t;
      assert s + decode(t) == decode(t);
    } else {
      var first, x := s[..|s| - 1], s[|s| - 1];
      FlatMapUndone(decode, f, first, f(x) + t);
      assert FlatMap(f, s) + t == FlatMap(f, first) + (f(x) + t);
      assert decode(f(x) + t) == [x] + decode(t);
      assert s + decode(t) == first + ([x] + decode(t));
    }
  }

  // All pieces, first one first.
  function Joined<T>(pieces: seq<seq<T>>): seq<T> {
    if pieces == [] then [] else pieces[0] + Joined(pieces[1..])
  }

  // ----- items cut off the front of a buffer -----

  datatype Next<D> = Incomplete | Complete(item: D, size: nat)

  predicate Ready<D>(next: Next<D>, length: nat) {
    next.Complete? && 0 < next.size <= length
  }

  // All items in the buffer, and what is left of it.
  function Drain<T, D>(read: seq<T> -> Next<D>, b: seq<T>): (r: (seq<D>, seq<T>))
    decreases |b|
  {
    var next := read(b);
    if !Ready(next, |b|) then ([], b)
    else
      var (ds, rest) := Drain(read, b[next.size..]);
      ([next.item] + ds, rest)
  }

  // More data does not change an item that is complete.
  ghost predicate Stable<T(!new), D>(read: seq<T> -> Next<D>) {
    forall a, b {:trigger read(a + b)} :: Ready(read(a), |a|) ==> read(a + b) == read(a)
  }

  /** Taking out what is complete before more data arrives makes no difference
      to what is taken out and left in the end. */
  lemma {:induction false} DrainSplit<T(!new), D>(read: seq<T> -> Next<D>, a: seq<T>, b: seq<T>)
    requires Stable(read)
    ensures Drained(read, a + b, Drain(read, a).0, Drain(read, a).1 + b)
    decreases |a|
  {
    var next := read(a);
    if Ready(next, |a|) {
      assert read(a + b) == next;
      DrainSplit(read, a[next.size..], b);
      assert (a + b)[next.size..] == a[next.size..] + b;
      var (ds, rest) := Drain(read, a[next.size..]);
      assert [next.item] + ds + Drain(read, rest + b).0 == [next.item] + (ds + Drain(read, rest + b).0);
    } else {
      assert [] + Drain(read, a + b).0 == Drain(read, a + b).0;
    }
  }

  // The items ds have been taken out of all, and rest is still to be looked at.
  ghost predicate Drained<T, D>(read: seq<T> -> Next<D>, all: seq<T>, ds: seq<D>, rest: seq<T>) {
    Drain(read, all) == (ds + Drain(read, rest).0, Drain(read, rest).1)
  }

  lemma DrainedNext<T, D>(read: seq<T> -> Next<D>, all: seq<T>, ds: seq<D>, rest: seq<T>)
    requires Drained(read, all, ds, rest)
    ensures var next := read(rest);
      if Ready(next, |rest|) then Drained(read, all, ds + [next.item], rest[next.size..]) else Drain(read, all) == (ds, rest)
  {
    var next := read(rest);
    if Ready(next, |rest|) {
      var more := Drain(read, rest[next.size..]).0;
      assert ds + ([next.item] + more) == ds + [next.item] + more;
    } else {
      assert ds + [] == ds;
    }
  }

  // Item k is read from the start of piece k, whatever follows it.
  ghost predicate Reads<T(!new), D>(read: seq<T> -> Next<D>, piece: seq<T>, item: D) {
    piece != [] && forall rest {:trigger read(piece + rest)} :: read(piece + rest) == Complete(item, |piece|)
  }

  /** Exactly the items of the pieces are taken out, in order; an incomplete rest stays. */
  lemma {:induction false} DrainPieces<T(!new), D>(read: seq<T> -> Next<D>, pieces: seq<seq<T>>, items: seq<D>, t: seq<T>)
    requires |items| == |pieces| && !Ready(read(t), |t|)
    requires forall i {:trigger pieces[i]} :: 0 <= i < |pieces| ==> Reads(read, pieces[i], items[i])
    ensures Drain(read, Joined(pieces) + t) == (items, t)
    decreases |pieces|
  {
    if pieces == [] {
      assert Joined(pieces) + t == t;
    } else {
      var p, rest := pieces[0], Joined(pieces[1..]) + t;
      assert Joined(pieces) + t == p + rest;
      assert (p + rest)[|p|..] == rest;
      assert Reads(read, p, items[0]);
      DrainPieces(read, pieces[1..], items[1..], t);
      assert items == [items[0]] + items[1..];
    }
  }

  lemma PrefixWaits<T(!new), D>(read: seq<T> -> Next<D>, t: seq<T>, start: seq<T>)
    requires Stable(read) && start <= t
    requires !Ready(read(t), |t|) || (start != t && read(t) == Complete(read(t).item, |t|))
    ensures !Ready(read(start), |start|)
  {
    var rest := t[|start|..];
    assert start + rest == t;
    assert Ready(read(start), |start|) ==> read(start + rest) == read(start);
  }

  // What is left of the start of a stream is part of one piece.
  lemma {:induction false} LeftIsShort<T(!new), D>(read: seq<T> -> Next<D>, pieces: seq<seq<T>>, items: seq<D>, t: seq<T>,
                                                   start: seq<T>, largest: nat)
    requires Stable(read) && |items| == |pieces|
    requires forall i {:trigger pieces[i]} :: 0 <= i < |pieces| ==> Reads(read, pieces[i], items[i]) && |pieces[i]| <= largest
    requires !Ready(read(t), |t|) && |t| <= largest && start <= Joined(pieces) + t
    ensures |Drain(read, start).1| <= largest
    decreases |pieces|
  {
    if pieces == [] {
      assert start <= t;
      PrefixWaits(read, t, start);
    } else {
      var p, rest := pieces[0], Joined(pieces[1..]) + t;
      assert Reads(read, p, items[0]);
      assert Joined(pieces) + t == p + rest;
      if |start| < |p| {
        assert p + [] == p && read(p + []) == Complete(items[0], |p|);
        assert start <= p;
        PrefixWaits(read, p, start);
      } else {
        var more := start[|p|..];
        assert start == p + more && more <= rest;
        assert read(p + more) == Complete(items[0], |p|);
        LeftIsShort(read, pieces[1..], items[1..], t, more, largest);
      }
    }
  }
}
