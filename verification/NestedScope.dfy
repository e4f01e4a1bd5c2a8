/** The stack of statement scopes of plugins/cpp/parser/src/nestedscope.h and
    nestedscope.cpp. A statement is identified by its address, here a number;
    None is the null pointer. */
module NestedScope {
  import opened Wrappers

  type StmtId = nat

  datatype State = Initial | Expected | Standalone | Invalid

  datatype Kind = Unknown | Open | Closed | OneWay | TwoWay

  /** The value of one scope. */
  datatype View = View(depth: nat, state: State, kind: Kind, exp0: Option<StmtId>, exp1: Option<StmtId>)

  // How a scope is configured: one constructor for each Make function.
  datatype Config =
    | Transparent
    | Compound
    | Statement
    | One(next: Option<StmtId>)
    | Two(next0: Option<StmtId>, next1: Option<StmtId>)
    | Function(body: Option<StmtId>)

  // What a scope allows to be nested inside it; defined for configured scopes.
  function Permits(v: View, s: StmtId): State {
    if v.state.Invalid? then Invalid
    else
      match v.kind
      case Open => Standalone
      case OneWay => if v.exp0 == Some(s) then Expected else Invalid
      case TwoWay => if v.exp0 == Some(s) || v.exp1 == Some(s) then Expected else Invalid
      case _ => Invalid
  }

  function Deeper(v: View, counts: bool): nat {
    if counts then v.depth + 1 else v.depth
  }

  function Configure(v: View, c: Config): View {
    match c
    case Transparent => v.(kind := Open)
    case Compound => v.(kind := Open, depth := Deeper(v, v.state.Standalone?))
    case Statement => v.(kind := Closed, depth := Deeper(v, !v.state.Invalid?))
    case One(s) => v.(kind := OneWay, exp0 := s, depth := Deeper(v, !v.state.Invalid?))
    case Two(s, t) => v.(kind := TwoWay, exp0 := s, exp1 := t, depth := Deeper(v, !v.state.Invalid?))
    case Function(s) => v.(kind := OneWay, exp0 := s, depth := 0)
  }

  // A scope left alone is configured as a statement before it is needed.
  function Settled(v: View): View {
    if v.kind.Unknown? then Configure(v, Statement) else v
  }

  // The scopes below a new one, and the new one itself.
  function Settle(vs: seq<View>): (r: seq<View>)
    ensures |r| == |vs|
  {
    if vs == [] then [] else vs[..|vs| - 1] + [Settled(vs[|vs| - 1])]
  }

  function Fresh(vs: seq<View>, s: Option<StmtId>): View {
    if vs == [] then View(0, Initial, Unknown, None, None)
    else
      var prev := Settled(vs[|vs| - 1]);
      View(prev.depth, if s.None? then Initial else Permits(prev, s.value), Unknown, None, None)
  }

  // Depth of the scope below the top one.
  function PrevDepth(vs: seq<View>): nat {
    if |vs| <= 1 then 0 else vs[|vs| - 2].depth
  }

  ghost function Below(scopes: seq<StatementScope>, i: nat): StatementScope?
    requires i < |scopes|
  {
    if i == 0 then null else scopes[i - 1]
  }

  class StatementStack {
    var top: StatementScope?
    // The scopes from the bottom to the top, and their values.
    ghost var scopes: seq<StatementScope>
    ghost var views: seq<View>

    ghost predicate Valid()
      reads this, scopes
    {
      Linked() && Proper(views)
    }

    // Links and values, whatever the states of the scopes.
    ghost predicate Linked()
      reads this, scopes
    {
      && |views| == |scopes|
      && (top == null <==> scopes == [])
      && (scopes != [] ==> top == scopes[|scopes| - 1])
      && (forall i {:trigger scopes[i]} :: 0 <= i < |scopes| ==> scopes[i].Holds(this, views[i]))
      && (forall i {:trigger scopes[i].previous} :: 0 <= i < |scopes| ==> scopes[i].previous == Below(scopes, i))
      && (forall i, j :: 0 <= i < j < |scopes| ==> scopes[i] != scopes[j])
    }

    constructor ()
      ensures Valid() && views == []
    {
      top := null;
      scopes, views := [], [];
    }

    /** The topmost scope that is not invalid. Its depth is the depth of the top
        scope, and if the top scope is configured then so is this one. */
    method TopValid() returns (scope: StatementScope?)
      requires Valid()
      ensures scope == null <==> scopes == []
      ensures scope != null ==> exists i {:trigger scopes[i]} :: 0 <= i < |scopes| && scope == scopes[i] && IsTopValid(views, i)
    {
      scope := top;
      ghost var i := |scopes| - 1;
      while scope != null && scope.state == Invalid
        invariant -1 <= i < |scopes|
        invariant scope == if i == -1 then null else scopes[i]
        invariant i == -1 ==> scopes == []
        invariant forall j {:trigger views[j]} :: i < j < |scopes| ==> views[j].state.Invalid?
        invariant i >= 0 ==> views[i].depth == views[|views| - 1].depth
        decreases i
      {
        scope := scope.previous;
        i := i - 1;
      }
    }
  }

  // Scope i is the topmost one that is not invalid.
  ghost predicate IsTopValid(vs: seq<View>, i: nat)
    requires i < |vs|
  {
    && !vs[i].state.Invalid?
    && (forall j :: i < j < |vs| ==> vs[j].state.Invalid?)
    && vs[i].depth == vs[|vs| - 1].depth
    && (i < |vs| - 1 ==> !vs[i].kind.Unknown?)
  }

  // Only the top scope may be unconfigured; an invalid scope adds no depth.
  ghost predicate Proper(vs: seq<View>) {
    && (forall i :: 0 <= i < |vs| - 1 ==> !vs[i].kind.Unknown?)
    && (forall i {:trigger vs[i].state} :: 0 <= i < |vs| && vs[i].state.Invalid? ==> i > 0 && vs[i].depth == vs[i - 1].depth)
  }

  lemma FreshIsProper(vs: seq<View>, s: Option<StmtId>)
    requires Proper(vs)
    ensures Proper(Settle(vs) + [Fresh(vs, s)])
  {
  }

  class StatementScope {
    const stack: StatementStack
    const previous: StatementScope?
    const stmt: Option<StmtId>
    var depth: nat
    var state: State
    var kind: Kind
    var exp0: Option<StmtId>
    var exp1: Option<StmtId>

    ghost predicate Holds(s: StatementStack, v: View)
      reads this
    {
      stack == s && v == View(depth, state, kind, exp0, exp1)
    }

    /** Places a scope for `stmt` on the stack; the scope below must be configured
        by now and is so configured as a plain statement if it is not yet. */
    constructor (stack: StatementStack, stmt: Option<StmtId>)
      requires stack.Valid()
      modifies stack, stack.scopes
      ensures stack.Valid()
      ensures stack.scopes == old(stack.scopes) + [this]
      ensures stack.views == Settle(old(stack.views)) + [Fresh(old(stack.views), stmt)]
    {
      this.stack := stack;
      this.previous := stack.top;
      this.stmt := stmt;
      this.depth := 0;
      this.state := Initial;
      this.kind := Unknown;
      this.exp0 := None;
      this.exp1 := None;
      new;
      if previous != null {
        Inherit(previous);
      }
      FreshIsProper(old(stack.views), stmt);
      Push(Fresh(old(stack.views), stmt));
    }

    method Push(ghost v: View)
      requires stack.Valid() && this !in stack.scopes && previous == stack.top
      requires Holds(stack, v) && Proper(stack.views + [v])
      modifies stack
      ensures stack.Valid() && stack.scopes == old(stack.scopes) + [this] && stack.views == old(stack.views) + [v]
    {
      stack.top := this;
      stack.scopes := stack.scopes + [this];
      stack.views := stack.views + [v];
    }

    // Takes over the depth of the scope below and what it permits.
    method Inherit(previous: StatementScope)
      requires stack.Valid() && this !in stack.scopes && stack.top == previous
      modifies this`depth, this`state, stack, stack.scopes
      ensures stack.Valid() && stack.scopes == old(stack.scopes) && stack.top == previous
      ensures stack.views == Settle(old(stack.views))
      ensures var fresh' := Fresh(old(stack.views), stmt);
        depth == fresh'.depth && state == if stmt.Some? then fresh'.state else old(state)
    {
      assert previous == stack.scopes[|stack.scopes| - 1];
      previous.EnsureConfigured();
      depth := previous.depth;
      if stmt.Some? {
        state := previous.CheckNext(stmt.value);
      }
    }

    // The destructor.
    method Destroy()
      requires stack.Valid() && stack.top == this
      modifies stack
      ensures stack.Valid()
      ensures stack.scopes == old(stack.scopes)[..|old(stack.scopes)| - 1]
      ensures stack.views == old(stack.views)[..|old(stack.views)| - 1]
    {
      stack.top := previous;
      stack.scopes := stack.scopes[..|stack.scopes| - 1];
      stack.views := stack.views[..|stack.views| - 1];
    }

    function CheckNext(s: StmtId): (r: State)
      requires kind != Unknown
      reads this
      ensures r == Standalone <==> state != Invalid && kind == Open
      ensures r == Expected <==>
        state != Invalid && ((kind == OneWay && exp0 == Some(s)) || (kind == TwoWay && Some(s) in {exp0, exp1}))
      ensures r != Initial
    {
      if state == Invalid then Invalid
      else
        match kind
        case Open => Standalone
        case Closed => Invalid
        case OneWay => if Some(s) == exp0 then Expected else Invalid
        case TwoWay => if Some(s) == exp0 || Some(s) == exp1 then Expected else Invalid
    }

    function IsReal(): (r: bool)
      requires stack.Valid() && stack.top == this
      reads this, stack, stack.scopes
      ensures r <==> stack.views[|stack.views| - 1].depth > PrevDepth(stack.views)
    {
      assert this == stack.scopes[|stack.scopes| - 1];
      assert previous != null ==> previous == stack.scopes[|stack.scopes| - 2];
      depth > (if previous != null then previous.depth else 0)
    }

    // An unconfigured scope is always the one on top.
    method EnsureConfigured()
      requires stack.Valid() && this in stack.scopes
      modifies this, stack
      ensures stack.Valid() && stack.scopes == old(stack.scopes) && stack.top == old(stack.top)
      ensures stack.views == if old(kind) == Unknown then Settle(old(stack.views)) else old(stack.views)
    {
      if kind == Unknown {
        MakeStatement();
      }
    }

    // The Make functions configure the scope on top of the stack, once.
    ghost predicate CanConfigure()
      reads this, stack, stack.scopes
    {
      stack.Valid() && stack.top == this && kind == Unknown
    }

    method MakeTransparent()
      requires CanConfigure()
      modifies this, stack`views
      ensures stack.Valid() && stack.views == Top(old(stack.views), Transparent)
    {
      kind := Open;
      stack.views := Top(stack.views, Transparent);
    }

    method MakeCompound()
      requires CanConfigure()
      modifies this, stack`views
      ensures stack.Valid() && stack.views == Top(old(stack.views), Compound)
    {
      assert this == stack.scopes[|stack.scopes| - 1];
      kind := Open;
      if state == Standalone {
        depth := depth + 1;
      }
      stack.views := Top(stack.views, Compound);
    }

    method MakeStatement()
      requires CanConfigure()
      modifies this, stack`views
      ensures stack.Valid() && stack.views == Top(old(stack.views), Statement)
    {
      assert this == stack.scopes[|stack.scopes| - 1];
      kind := Closed;
      if state != Invalid {
        depth := depth + 1;
      }
      stack.views := Top(stack.views, Statement);
    }

    method MakeOneWay(next: Option<StmtId>)
      requires CanConfigure()
      modifies this, stack`views
      ensures stack.Valid() && stack.views == Top(old(stack.views), One(next))
    {
      assert this == stack.scopes[|stack.scopes| - 1];
      kind := OneWay;
      exp0 := next;
      if state != Invalid {
        depth := depth + 1;
      }
      stack.views := Top(stack.views, One(next));
    }

    /** In an invalid scope, which the visitor never makes a function of, the depth
        would no longer be that of the scope below. */
    method MakeFunction(body: Option<StmtId>)
      requires CanConfigure()
      modifies this, stack`views
      ensures stack.Linked() && (old(state) != Invalid ==> stack.Valid())
      ensures stack.views == Top(old(stack.views), Function(body))
    {
      assert this == stack.scopes[|stack.scopes| - 1];
      kind := OneWay;
      exp0 := body;
      depth := 0;
      stack.views := Top(stack.views, Function(body));
    }

    method MakeTwoWay(next0: Option<StmtId>, next1: Option<StmtId>)
      requires CanConfigure()
      modifies this, stack`views
      ensures stack.Valid() && stack.views == Top(old(stack.views), Two(next0, next1))
    {
      assert this == stack.scopes[|stack.scopes| - 1];
      kind := TwoWay;
      exp0, exp1 := next0, next1;
      if state != Invalid {
        depth := depth + 1;
      }
      stack.views := Top(stack.views, Two(next0, next1));
    }
  }

  // The stack after its top scope has been configured.
  ghost function Top(vs: seq<View>, c: Config): (r: seq<View>)
    ensures |r| == |vs|
  {
    if vs == [] then [] else vs[..|vs| - 1] + [Configure(vs[|vs| - 1], c)]
  }
}
