/** The incremental part of plugins/cpp/parser/src/cppparser.cpp: which files are
    marked for a new parse, and in which layers their old data are cleaned up.

    A file stands for its path; ids are hashes of paths and taken to be one to
    one. `inclusions` holds the CppHeaderInclusion rows of the database. */
module CppParser {
  import opened Wrappers

  type File = string

  datatype IncrementalStatus = MODIFIED | ADDED | DELETED | ACTION_CHANGED

  datatype Inclusion = Inclusion(includer: File, included: File)

  // A build action of the database with the source files it compiles.
  datatype BuildAction = BuildAction(command: string, sources: seq<File>)

  // What is read from one input: the compilation commands of a regular file that
  // loads as a compilation database, or None.
  type Input = Option<seq<string>>

  // std::map::at throws when an includer has no vertex.
  datatype CleanupOrder = Order(layers: seq<seq<File>>) | MissingVertex(path: File)

  // ----- files reached along reversed inclusions -----

  // p climbs from p[0] through files each of which includes the one before.
  ghost predicate Climbs(rows: seq<Inclusion>, p: seq<File>) {
    |p| > 0 && forall i :: 0 <= i < |p| - 1 ==> Inclusion(p[i + 1], p[i]) in rows
  }

  // x includes f, perhaps transitively, through files none of which is in `known`.
  ghost predicate ReachedOutside(rows: seq<Inclusion>, known: set<File>, f: File, x: File) {
    exists p :: Climbs(rows, p) && |p| > 1 && p[0] == f && p[|p| - 1] == x
      && forall i :: 0 < i < |p| ==> p[i] !in known
  }

  ghost predicate IncludersIn(rows: seq<Inclusion>, f: File, keys: set<File>) {
    forall g :: Inclusion(g, f) in rows ==> g in keys
  }

  ghost function Includers(rows: seq<Inclusion>): set<File> {
    set e | e in rows :: e.includer
  }

  ghost predicate IncluderClosed(rows: seq<Inclusion>, keys: set<File>) {
    forall f :: f in keys ==> IncludersIn(rows, f, keys)
  }

  lemma IncludersMonotone(rows: seq<Inclusion>, keys: set<File>, more: set<File>)
    requires keys <= more
    ensures forall f :: IncludersIn(rows, f, keys) ==> IncludersIn(rows, f, more)
  {
  }

  predicate IsSeed(s: IncrementalStatus) {
    s.MODIFIED? || s.DELETED?
  }

  ghost function Seeds(status: map<File, IncrementalStatus>): set<File> {
    set f | f in status && IsSeed(status[f])
  }

  lemma SeedsAre(status: map<File, IncrementalStatus>)
    ensures forall f :: f in Seeds(status) <==> f in status && (status[f] == MODIFIED || status[f] == DELETED)
    ensures (forall f :: f in status ==> status[f] == ADDED || status[f] == ACTION_CHANGED) ==> Seeds(status) == {}
  {
  }

  // x is marked by the inclusion pass that starts from `status`.
  ghost predicate Marked(rows: seq<Inclusion>, status: map<File, IncrementalStatus>, x: File) {
    exists s :: s in Seeds(status) && ReachedOutside(rows, status.Keys, s, x)
  }

  lemma ReachedStep(rows: seq<Inclusion>, known: set<File>, f: File, g: File)
    requires Inclusion(g, f) in rows && g !in known
    ensures ReachedOutside(rows, known, f, g)
  {
    var p := [f, g];
    assert Climbs(rows, p) && p[|p| - 1] == g;
  }

  lemma ReachedFurther(rows: seq<Inclusion>, known: set<File>, more: set<File>, f: File, g: File, x: File)
    requires Inclusion(g, f) in rows && g !in known && known <= more
    requires ReachedOutside(rows, more, g, x)
    ensures ReachedOutside(rows, known, f, x)
  {
    var p :| Climbs(rows, p) && |p| > 1 && p[0] == g && p[|p| - 1] == x
      && forall i :: 0 < i < |p| ==> p[i] !in more;
    var q := [f] + p;
    assert q[|q| - 1] == x;
    forall i | 0 <= i < |q| - 1 ensures Inclusion(q[i + 1], q[i]) in rows {
      if i > 0 {
        assert q[i + 1] == p[i] && q[i] == p[i - 1];
      }
    }
    assert Climbs(rows, q);
  }

  // Closed under includers except at `known` files: contains what is reached outside `known`.
  lemma {:induction false} ReachedIsKey(rows: seq<Inclusion>, known: set<File>, keys: set<File>, p: seq<File>)
    requires Climbs(rows, p) && |p| > 1 && forall i :: 0 < i < |p| ==> p[i] !in known
    requires IncludersIn(rows, p[0], keys)
    requires forall f :: f in keys - known ==> IncludersIn(rows, f, keys)
    ensures p[|p| - 1] in keys
  {
    assert Inclusion(p[1], p[0]) in rows;
    if |p| > 2 {
      var q := p[1..];
      forall i | 0 <= i < |q| - 1 ensures Inclusion(q[i + 1], q[i]) in rows {
        assert Inclusion(p[i + 2], p[i + 1]) in rows;
      }
      assert q[0] in keys - known;
      ReachedIsKey(rows, known, keys, q);
    }
  }

  // The key sets before, between and after two parts of the pass fit together.
  lemma ReachedThrough(rows: seq<Inclusion>, known: set<File>, more: set<File>, s: File, x: File)
    requires known <= more && ReachedOutside(rows, more, s, x)
    ensures ReachedOutside(rows, known, s, x)
  {
    var p :| Climbs(rows, p) && |p| > 1 && p[0] == s && p[|p| - 1] == x
      && forall i :: 0 < i < |p| ==> p[i] !in more;
    assert forall i :: 0 < i < |p| ==> p[i] !in known;
  }

  // ----- vanished build actions -----

  // The input is a compilation database without the command of the action.
  predicate Lacks(input: Input, action: BuildAction) {
    input.Some? && action.command !in input.value
  }

  // The sources of the actions that are missing from one of the inputs.
  ghost function Vanished(inputs: seq<Input>, actions: seq<BuildAction>): set<File> {
    set i, a, f | 0 <= i < |inputs| && a in actions && Lacks(inputs[i], a) && f in a.sources :: f
  }

  lemma VanishedIs(inputs: seq<Input>, actions: seq<BuildAction>)
    ensures forall f :: f in Vanished(inputs, actions) <==>
      exists i, a :: 0 <= i < |inputs| && inputs[i].Some? && a in actions && a.command !in inputs[i].value && f in a.sources
  {
    assert forall i, a :: 0 <= i < |inputs| ==> (Lacks(inputs[i], a) <==> inputs[i].Some? && a.command !in inputs[i].value);
  }

  lemma VanishedNext(inputs: seq<Input>, i: nat, actions: seq<BuildAction>)
    requires i < |inputs|
    ensures Vanished(inputs[..i + 1], actions) == Vanished(inputs[..i], actions) + Vanished([inputs[i]], actions)
  {
    assert inputs[..i + 1] == inputs[..i] + [inputs[i]];
    forall f | f in Vanished([inputs[i]], actions) ensures f in Vanished(inputs[..i + 1], actions) {
      var a :| a in actions && Lacks(inputs[i], a) && f in a.sources;
      assert inputs[..i + 1][i] == inputs[i];
    }
    forall f | f in Vanished(inputs[..i], actions) ensures f in Vanished(inputs[..i + 1], actions) {
      var j, a :| 0 <= j < i && a in actions && Lacks(inputs[..i][j], a) && f in a.sources;
      assert inputs[..i + 1][j] == inputs[..i][j];
    }
    forall f | f in Vanished(inputs[..i + 1], actions)
      ensures f in Vanished(inputs[..i], actions) + Vanished([inputs[i]], actions)
    {
      var j, a :| 0 <= j < i + 1 && a in actions && Lacks(inputs[..i + 1][j], a) && f in a.sources;
      if j < i {
        assert inputs[..i][j] == inputs[..i + 1][j];
      } else {
        assert [inputs[i]][0] == inputs[..i + 1][j];
      }
    }
  }

  lemma VanishedAction(input: Input, actions: seq<BuildAction>, k: nat)
    requires k < |actions|
    ensures Vanished([input], actions[..k + 1]) ==
      Vanished([input], actions[..k]) + if Lacks(input, actions[k]) then ToSet(actions[k].sources) else {}
  {
    assert actions[..k + 1] == actions[..k] + [actions[k]];
    assert [input][0] == input;
  }

  // The files of `more` that are not marked yet, as ACTION_CHANGED.
  ghost predicate Entered(status: map<File, IncrementalStatus>, more: set<File>, after: map<File, IncrementalStatus>) {
    && after.Keys == status.Keys + more
    && forall f :: f in after ==> after[f] == if f in status then status[f] else ACTION_CHANGED
  }

  // ----- layers -----

  ghost predicate HasIncluderIn(rows: seq<Inclusion>, f: File, rest: set<File>) {
    exists g :: g in rest && Inclusion(g, f) in rows
  }

  // The files of `rest` no file of `rest` includes; all of `rest` when there is none.
  ghost function Sources(rows: seq<Inclusion>, rest: set<File>): set<File> {
    set f | f in rest && !HasIncluderIn(rows, f, rest)
  }

  ghost function Layer(rows: seq<Inclusion>, rest: set<File>): set<File> {
    if Sources(rows, rest) == {} then rest else Sources(rows, rest)
  }

  // What is left of `names` after k layers.
  ghost function Rest(rows: seq<Inclusion>, names: set<File>, k: nat): set<File> {
    if k == 0 then names else Rest(rows, names, k - 1) - Layer(rows, Rest(rows, names, k - 1))
  }

  // Layer k is the one the files of the cycles are put into.
  ghost predicate IsLeftover(rows: seq<Inclusion>, names: set<File>, k: nat) {
    Rest(rows, names, k) != {} && Sources(rows, Rest(rows, names, k)) == {}
  }

  ghost predicate Distinct(s: seq<File>) {
    forall i, j :: 0 <= i < j < |s| ==> s[i] != s[j]
  }

  ghost function ToSet(s: seq<File>): set<File> {
    set x | x in s
  }

  lemma ToSetAppend(s: seq<File>, x: File)
    ensures ToSet(s + [x]) == ToSet(s) + {x}
  {
  }

  ghost predicate IsLayer(rows: seq<Inclusion>, names: set<File>, k: nat, layer: seq<File>) {
    Distinct(layer) && layer != [] && ToSet(layer) == Layer(rows, Rest(rows, names, k))
  }

  ghost predicate IsCleanupOrder(rows: seq<Inclusion>, names: set<File>, layers: seq<seq<File>>) {
    PeeledSoFar(rows, names, layers, {})
  }

  ghost predicate PeeledSoFar(rows: seq<Inclusion>, names: set<File>, layers: seq<seq<File>>, rest: set<File>) {
    && (forall k :: 0 <= k < |layers| ==> IsLayer(rows, names, k, layers[k]))
    && Rest(rows, names, |layers|) == rest
  }

  lemma PeelOneMore(rows: seq<Inclusion>, names: set<File>, layers: seq<seq<File>>, rest: set<File>, level: seq<File>)
    requires PeeledSoFar(rows, names, layers, rest)
    requires Distinct(level) && level != [] && ToSet(level) == Layer(rows, rest)
    ensures PeeledSoFar(rows, names, layers + [level], rest - Layer(rows, rest))
  {
    assert IsLayer(rows, names, |layers|, level);
  }

  // boost::in_degree and boost::clear_out_edges on the list of edges.
  function InDegree(edges: seq<Inclusion>, v: File): (n: nat)
    ensures n == 0 <==> forall u :: Inclusion(u, v) !in edges
  {
    if edges == [] then 0
    else
      assert edges == [edges[0]] + edges[1..];
      (if edges[0].included == v then assert edges[0] == Inclusion(edges[0].includer, v); 1 else 0) + InDegree(edges[1..], v)
  }

  function ClearOutEdges(edges: seq<Inclusion>, u: File): (r: seq<Inclusion>)
    ensures forall e :: e in r <==> e in edges && e.includer != u
  {
    if edges == [] then []
    else
      assert edges == [edges[0]] + edges[1..];
      (if edges[0].includer == u then [] else [edges[0]]) + ClearOutEdges(edges[1..], u)
  }

  // The edges left in the graph are the inclusions by the vertices left in the map.
  ghost predicate EdgesFrom(edges: seq<Inclusion>, rows: seq<Inclusion>, names: set<File>, vertices: set<File>) {
    forall e :: e in edges <==> e in rows && e.included in names && e.includer in vertices
  }

  class Parser {
    var fileStatus: map<File, IncrementalStatus>
    const inclusions: seq<Inclusion>
    const buildActions: seq<BuildAction>

    constructor (fileStatus: map<File, IncrementalStatus>, inclusions: seq<Inclusion>, buildActions: seq<BuildAction>)
      ensures this.fileStatus == fileStatus && this.inclusions == inclusions && this.buildActions == buildActions
    {
      this.fileStatus := fileStatus;
      this.inclusions := inclusions;
      this.buildActions := buildActions;
    }

    /** Marks the includers of `file` that are not marked yet, depth first. */
    method MarkByInclusion(file: File)
      modifies this`fileStatus
      ensures old(fileStatus.Keys) <= fileStatus.Keys
      ensures forall f :: f in old(fileStatus) ==> fileStatus[f] == old(fileStatus)[f]
      ensures forall f :: f in fileStatus && f !in old(fileStatus) ==>
        fileStatus[f] == MODIFIED && ReachedOutside(inclusions, old(fileStatus.Keys), file, f)
      ensures IncludersIn(inclusions, file, fileStatus.Keys)
      ensures forall f :: f in fileStatus.Keys - old(fileStatus.Keys) ==> IncludersIn(inclusions, f, fileStatus.Keys)
      decreases Includers(inclusions) - fileStatus.Keys
    {
      ghost var known := fileStatus.Keys;
      for i := 0 to |inclusions|
        invariant known <= fileStatus.Keys
        invariant forall f :: f in old(fileStatus) ==> fileStatus[f] == old(fileStatus)[f]
        invariant forall f :: f in fileStatus && f !in known ==>
          fileStatus[f] == MODIFIED && ReachedOutside(inclusions, known, file, f)
        invariant forall j :: 0 <= j < i && inclusions[j].included == file ==> inclusions[j].includer in fileStatus
        invariant forall f :: f in fileStatus.Keys - known ==> IncludersIn(inclusions, f, fileStatus.Keys)
      {
        if inclusions[i].included == file {
          var loaded := inclusions[i].includer;
          if loaded !in fileStatus {
            assert inclusions[i] == Inclusion(loaded, file);
            ghost var before := fileStatus.Keys;
            fileStatus := fileStatus[loaded := MODIFIED];
            ghost var between := fileStatus.Keys;
            ReachedStep(inclusions, known, file, loaded);
            assert loaded in Includers(inclusions) - known;
            assert Includers(inclusions) - between <= Includers(inclusions) - known;
            MarkByInclusion(loaded);
            IncludersMonotone(inclusions, before, fileStatus.Keys);
            forall f | f in fileStatus.Keys - between
              ensures ReachedOutside(inclusions, known, file, f)
            {
              ReachedFurther(inclusions, known, between, file, loaded, f);
            }
          }
        }
      }
    }

    /** The inclusion pass of markModifiedFiles: every file that was MODIFIED or
        DELETED at the start is a starting point. */
    method MarkIncluders()
      modifies this`fileStatus
      ensures forall f :: f in old(fileStatus) ==> f in fileStatus && fileStatus[f] == old(fileStatus)[f]
      ensures forall f :: f in fileStatus <==> f in old(fileStatus) || Marked(inclusions, old(fileStatus), f)
      ensures forall f :: f in fileStatus && f !in old(fileStatus) ==> fileStatus[f] == MODIFIED
      ensures forall f :: f in old(fileStatus) && (old(fileStatus)[f] == MODIFIED || old(fileStatus)[f] == DELETED) ==>
        IncludersIn(inclusions, f, fileStatus.Keys)
      ensures (forall f :: f in old(fileStatus) ==> old(fileStatus)[f] == ADDED || old(fileStatus)[f] == ACTION_CHANGED) ==>
        fileStatus == old(fileStatus)
    {
      ghost var start := fileStatus;
      var todo := set f | f in fileStatus && IsSeed(fileStatus[f]);
      ghost var done: set<File> := {};
      while todo != {}
        invariant start.Keys <= fileStatus.Keys && done + todo == Seeds(start)
        invariant forall f :: f in start ==> fileStatus[f] == start[f]
        invariant forall f :: f in fileStatus && f !in start ==> fileStatus[f] == MODIFIED && Marked(inclusions, start, f)
        invariant forall f :: f in done ==> IncludersIn(inclusions, f, fileStatus.Keys)
        invariant forall f :: f in fileStatus.Keys - start.Keys ==> IncludersIn(inclusions, f, fileStatus.Keys)
        decreases todo
      {
        var file :| file in todo;
        ghost var known := fileStatus.Keys;
        MarkByInclusion(file);
        IncludersMonotone(inclusions, known, fileStatus.Keys);
        forall f | f in fileStatus.Keys - known ensures Marked(inclusions, start, f) {
          ReachedThrough(inclusions, start.Keys, known, file, f);
        }
        todo := todo - {file};
        done := done + {file};
      }
      forall x | Marked(inclusions, start, x) ensures x in fileStatus {
        var s :| s in Seeds(start) && ReachedOutside(inclusions, start.Keys, s, x);
        var p :| Climbs(inclusions, p) && |p| > 1 && p[0] == s && p[|p| - 1] == x
          && forall i :: 0 < i < |p| ==> p[i] !in start.Keys;
        ReachedIsKey(inclusions, start.Keys, fileStatus.Keys, p);
      }
      SeedsAre(start);
    }

    /** The last part of markModifiedFiles: the sources of build actions that are
        missing from an input are entered, without a look at their includers. */
    method MarkActionChanged(inputs: seq<Input>)
      modifies this`fileStatus
      ensures Entered(old(fileStatus), Vanished(inputs, buildActions), fileStatus)
      ensures forall f :: f in old(fileStatus) ==> f in fileStatus && fileStatus[f] == old(fileStatus)[f]
      ensures forall f :: f in fileStatus && f !in old(fileStatus) ==> fileStatus[f] == ACTION_CHANGED
      ensures forall f :: f !in old(fileStatus) ==> (f in fileStatus <==>
        exists i, a ::
          0 <= i < |inputs| && inputs[i].Some? && a in buildActions && a.command !in inputs[i].value && f in a.sources)
    {
      for i := 0 to |inputs|
        invariant Entered(old(fileStatus), Vanished(inputs[..i], buildActions), fileStatus)
      {
        VanishedNext(inputs, i, buildActions);
        if inputs[i].Some? {
          MarkSourcesNotIn(inputs[i].value);
        }
      }
      assert inputs[..|inputs|] == inputs;
      VanishedIs(inputs, buildActions);
    }

    // The build actions whose command is not among those of one input.
    method MarkSourcesNotIn(commands: seq<string>)
      modifies this`fileStatus
      ensures Entered(old(fileStatus), Vanished([Some(commands)], buildActions), fileStatus)
    {
      for k := 0 to |buildActions|
        invariant Entered(old(fileStatus), Vanished([Some(commands)], buildActions[..k]), fileStatus)
      {
        VanishedAction(Some(commands), buildActions, k);
        if buildActions[k].command !in commands {
          MarkSources(buildActions[k].sources);
        }
      }
      assert buildActions[..|buildActions|] == buildActions;
    }

    method MarkSources(sources: seq<File>)
      modifies this`fileStatus
      ensures Entered(old(fileStatus), ToSet(sources), fileStatus)
    {
      for j := 0 to |sources|
        invariant Entered(old(fileStatus), ToSet(sources[..j]), fileStatus)
      {
        assert sources[..j + 1] == sources[..j] + [sources[j]];
        if sources[j] !in fileStatus {
          fileStatus := fileStatus[sources[j] := ACTION_CHANGED];
        }
      }
      assert sources[..|sources|] == sources;
    }

    /** One vertex for each marked file, one edge for each inclusion of a marked
        file; fails when an includer is not marked. */
    method BuildEdges() returns (missing: bool, path: File, edges: seq<Inclusion>)
      ensures missing <==> !IncluderClosed(inclusions, fileStatus.Keys)
      ensures !missing ==> forall e :: e in edges <==> e in inclusions && e.included in fileStatus
      ensures missing ==> path !in fileStatus && exists f :: f in fileStatus && Inclusion(path, f) in inclusions
    {
      edges, missing, path := [], false, "";
      var todo := fileStatus.Keys;
      while todo != {}
        invariant todo <= fileStatus.Keys
        invariant forall e :: e in edges <==> e in inclusions && e.included in fileStatus.Keys - todo
        invariant forall f :: f in fileStatus.Keys - todo ==> IncludersIn(inclusions, f, fileStatus.Keys)
        decreases todo
      {
        var item :| item in todo;
        for j := 0 to |inclusions|
          invariant forall e :: e in edges <==>
            || (e in inclusions && e.included in fileStatus.Keys - todo)
            || (e in inclusions[..j] && e.included == item)
          invariant forall g :: Inclusion(g, item) in inclusions[..j] ==> g in fileStatus
        {
          assert inclusions[..j + 1] == inclusions[..j] + [inclusions[j]];
          if inclusions[j].included == item {
            if inclusions[j].includer !in fileStatus {
              missing, path := true, inclusions[j].includer;
              assert Inclusion(path, item) in inclusions;
              return;
            }
            edges := edges + [inclusions[j]];
          }
        }
        assert inclusions[..|inclusions|] == inclusions;
        todo := todo - {item};
      }
    }

    /** Peels the inclusion graph into layers by in-degree; what only cycles keep
        from being peeled becomes the last layer. */
    method CreateCleanupOrder() returns (r: CleanupOrder)
      ensures r.Order? <==> IncluderClosed(inclusions, fileStatus.Keys)
      ensures r.Order? ==> IsCleanupOrder(inclusions, fileStatus.Keys, r.layers)
      ensures r.MissingVertex? ==> r.path !in fileStatus && exists f :: f in fileStatus && Inclusion(r.path, f) in inclusions
    {
      var missing, path, edges := BuildEdges();
      if missing {
        return MissingVertex(path);
      }
      ghost var names := fileStatus.Keys;
      var vertices := fileStatus.Keys;
      var order: seq<seq<File>> := [];
      while vertices != {}
        invariant vertices <= names && PeeledSoFar(inclusions, names, order, vertices)
        invariant vertices != {} ==> EdgesFrom(edges, inclusions, names, vertices)
        decreases vertices
      {
        var level;
        ghost var rest := vertices;
        level, edges, vertices := PeelLevel(edges, vertices, names);
        PeelOneMore(inclusions, names, order, rest, level);
        order := order + [level];
      }
      return Order(order);
    }

    // One iteration: the next level, what remains of the graph and of the map.
    method PeelLevel(edges: seq<Inclusion>, vertices: set<File>, ghost names: set<File>)
      returns (level: seq<File>, edges': seq<Inclusion>, vertices': set<File>)
      requires vertices <= names && IncluderClosed(inclusions, names) && vertices != {}
      requires EdgesFrom(edges, inclusions, names, vertices)
      ensures Distinct(level) && level != [] && ToSet(level) == Layer(inclusions, vertices)
      ensures vertices' == vertices - Layer(inclusions, vertices)
      ensures vertices' != {} ==> EdgesFrom(edges', inclusions, names, vertices')
    {
      level := PeelSources(edges, vertices, names);
      edges', vertices' := EraseLevel(edges, vertices, level, names);
      if level == [] {
        assert ToSet(level) == {};
        level := ListVertices(vertices');
        vertices' := {};
        assert vertices != {} && ToSet(level) == vertices;
      } else {
        assert level[0] in ToSet(level);
      }
    }

    // One level: the vertices of in-degree zero.
    method PeelSources(edges: seq<Inclusion>, vertices: set<File>, ghost names: set<File>) returns (level: seq<File>)
      requires vertices <= names && IncluderClosed(inclusions, names)
      requires EdgesFrom(edges, inclusions, names, vertices)
      ensures Distinct(level) && ToSet(level) == Sources(inclusions, vertices)
    {
      level := [];
      var todo := vertices;
      while todo != {}
        invariant todo <= vertices && Distinct(level)
        invariant ToSet(level) == Sources(inclusions, vertices) - todo
        decreases todo
      {
        var item :| item in todo;
        if InDegree(edges, item) == 0 {
          assert item !in ToSet(level);
          ToSetAppend(level, item);
          level := level + [item];
        } else {
          var u :| Inclusion(u, item) in edges;
          assert HasIncluderIn(inclusions, item, vertices);
        }
        todo := todo - {item};
      }
    }

    // Drops a level from the map of vertices and its out-edges from the graph.
    method EraseLevel(edges: seq<Inclusion>, vertices: set<File>, level: seq<File>, ghost names: set<File>)
      returns (edges': seq<Inclusion>, vertices': set<File>)
      requires vertices <= names && EdgesFrom(edges, inclusions, names, vertices)
      ensures vertices' == vertices - ToSet(level)
      ensures EdgesFrom(edges', inclusions, names, vertices')
    {
      edges', vertices' := edges, vertices;
      for j := 0 to |level|
        invariant vertices' == vertices - ToSet(level[..j])
        invariant EdgesFrom(edges', inclusions, names, vertices')
      {
        assert level[..j + 1] == level[..j] + [level[j]];
        edges' := ClearOutEdges(edges', level[j]);
        vertices' := vertices' - {level[j]};
      }
      assert level[..|level|] == level;
    }

    method ListVertices(vertices: set<File>) returns (level: seq<File>)
      ensures Distinct(level) && ToSet(level) == vertices
    {
      level := [];
      var todo := vertices;
      while todo != {}
        invariant todo <= vertices && Distinct(level) && ToSet(level) == vertices - todo
        decreases todo
      {
        var item :| item in todo;
        assert item !in ToSet(level);
        ToSetAppend(level, item);
        level := level + [item];
        todo := todo - {item};
      }
    }
  }
}
